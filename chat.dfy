/**
 * The handlers of `server/index.js` as functions over the store: the
 * `/api/check-code` and `/api/register` routes, the history query behind
 * `/api/messages` and `get_history`, and the `send_message` socket event.
 * Each handler is one atomic step from a store to a reply and a new store.
 */
module Chat {
  import opened Wrappers
  import opened Rows
  import opened JsString
  import opened Schema

  // ---------------------------------------------------------------- check-code

  /**
   * `POST /api/check-code`: the id of the redeemable row with this code
   * text, or None (`success: false`). A missing code binds NULL, which
   * matches no row.
   */
  function CheckCode(codes: seq<InviteCode>, code: Option<string>): (r: Option<int>)
    ensures r.Some? <==> (code.Some? &&
      exists i :: 0 <= i < |codes| && codes[i].code == code.value && Redeemable(codes[i]))
    ensures r.Some? ==>
      exists i :: 0 <= i < |codes| && codes[i].id == r.value && codes[i].code == code.value
                  && Redeemable(codes[i])
  {
    if code.None? then None
    else
      var rows := Select(codes, (c: InviteCode) => c.code == code.value && Redeemable(c));
      if |rows| == 0 then None else Some(rows[0].id)
  }

  // ------------------------------------------------------------------ register

  /** The two ways `/api/register` rejects a request, both with HTTP status 400. */
  datatype RegisterError = MissingFields | CodeNotFound {
    function Status(): int { 400 }
    function Text(): string {
      match this
      case MissingFields => "Не все поля заполнены"
      case CodeNotFound => "Код не найден"
    }
  }

  /** `Math.floor(Math.random() * colors.length)`, for a draw `random` in [0, 1). */
  function AvatarIndex(random: real): (k: nat)
    requires 0.0 <= random < 1.0
    ensures k < |Palette|
  {
    (random * (|Palette| as real)).Floor
  }

  /** `SELECT code FROM invite_codes WHERE id = ?`. */
  function CodesWithId(codes: seq<InviteCode>, codeId: int): (r: seq<InviteCode>)
    ensures r == [] <==> forall i :: 0 <= i < |codes| ==> codes[i].id != codeId
    ensures forall k :: 0 <= k < |r| ==> r[k] in codes && r[k].id == codeId
  {
    Select(codes, (c: InviteCode) => c.id == codeId)
  }

  /** `UPDATE invite_codes SET used_by = ? WHERE id = ?`. */
  function MarkUsed(codes: seq<InviteCode>, codeId: int, userId: int): (r: seq<InviteCode>)
    ensures |r| == |codes|
    ensures forall i :: 0 <= i < |codes| && codes[i].id != codeId ==> r[i] == codes[i]
    ensures forall i :: 0 <= i < |codes| && codes[i].id == codeId ==>
      r[i].usedBy == Some(userId) && r[i].(usedBy := codes[i].usedBy) == codes[i]
  {
    seq(|codes|, i requires 0 <= i < |codes| =>
      if codes[i].id == codeId then codes[i].(usedBy := Some(userId)) else codes[i])
  }

  /**
   * `POST /api/register`. Rejects a falsy nickname, tgUsername or codeId,
   * then a codeId naming no row. Otherwise inserts the user, with the role
   * decided by the code's text alone and a colour drawn with `random`, and
   * records the new user as the code's `used_by`. The code row is read by
   * id only: whether it is active or already used is not looked at.
   */
  function Register(t: Tables, nickname: Option<string>, tgUsername: Option<string>,
                    codeId: JsId, random: real): (out: (Result<Profile, RegisterError>, Tables))
    requires 0.0 <= random < 1.0
    ensures !IsTruthyText(nickname) || !IsTruthyText(tgUsername) || !IsTruthyId(codeId) ==>
      out == (Err(MissingFields), t)
    ensures IsTruthyText(nickname) && IsTruthyText(tgUsername) && IsTruthyId(codeId) ==>
      ((forall i :: 0 <= i < |t.codes| ==> t.codes[i].id != codeId.value) <==> out == (Err(CodeNotFound), t))
    ensures out.0.Ok? ==> out.0.value.role in {AdminRole, UserRole} && out.0.value.avatarColor in Palette
    ensures out.1.messages == t.messages && out.1.nextCodeId == t.nextCodeId
  {
    if !IsTruthyText(nickname) || !IsTruthyText(tgUsername) || !IsTruthyId(codeId) then
      (Err(MissingFields), t)
    else
      var avatarColor := Palette[AvatarIndex(random)];
      var rows := CodesWithId(t.codes, codeId.value);
      if |rows| == 0 then (Err(CodeNotFound), t)
      else
        var role := if rows[0].code == SeedCode then AdminRole else UserRole;
        var userId := t.nextUserId;
        var user := NewUser(userId, nickname.value, tgUsername.value, avatarColor, role);
        var t' := t.(users := t.users + [user], nextUserId := userId + 1,
                     codes := MarkUsed(t.codes, codeId.value, userId));
        (Ok(Profile(userId, nickname.value, tgUsername.value, role, avatarColor)), t')
  }

  // -------------------------------------------------------------- send_message

  /** What `send_message` emits: an `error` to the sending socket, or `new_message` to every socket. */
  datatype Event =
    | ErrorToSender(message: string)
    | NewMessageToAll(id: int, text: string, user: Profile)

  const BannedText: string := "Вы забанены"
  const SendFailedText: string := "Ошибка отправки"

  /**
   * The `send_message` socket event, with its payload's `userId` and `text`
   * (`None` when absent or not a string). Returns the events emitted, in
   * order, and the new store.
   */
  function SendMessage(t: Tables, userId: JsId, text: Option<string>): (out: (seq<Event>, Tables))
    ensures text.None? ==> out == ([ErrorToSender(SendFailedText)], t)
    ensures text.Some? && (Trim(text.value) == [] || !IsTruthyId(userId)) ==> out == ([], t)
    ensures |out.0| <= 1
    ensures out.1.users == t.users && out.1.codes == t.codes
    ensures out.1.nextUserId == t.nextUserId && out.1.nextCodeId == t.nextCodeId
    ensures out.1 == t || (text.Some? && IsTruthyId(userId) &&
      out.1.messages == t.messages + [Message(t.nextMessageId, userId.value, Trim(text.value))] &&
      out.1.nextMessageId == t.nextMessageId + 1)
    ensures forall e :: e in out.0 && e.NewMessageToAll? ==>
      out.1 != t && e.id == t.nextMessageId && e.text == Trim(text.value) && e.user.id == userId.value
  {
    if text.None? then
      // `text.trim()` throws; the handler's catch reports a send failure to the sender.
      ([ErrorToSender(SendFailedText)], t)
    else
      var trimmedText := Trim(text.value);
      if trimmedText == [] || !IsTruthyId(userId) then ([], t)
      else
        var uid := userId.value;
        var banRow := LookupUser(t.users, uid);
        if banRow.Some? && banRow.value.isBanned != 0 then ([ErrorToSender(BannedText)], t)
        else
          var id := t.nextMessageId;
          var t' := t.(messages := t.messages + [Message(id, uid, trimmedText)], nextMessageId := id + 1);
          var sender := LookupUser(t'.users, uid);
          if sender.None? then ([], t')
          else ([NewMessageToAll(id, trimmedText, ProfileOf(sender.value))], t')
  }

  // ------------------------------------------------------------------- history

  /** A row of the history query: the message's columns and its author's public columns. */
  datatype HistoryRow = HistoryRow(id: int, userId: int, text: string, nickname: string,
                                   avatarColor: string, tgUsername: string, role: string)

  /** `LIMIT 100`. */
  const HistoryLimit: nat := 100

  function HistoryRowOf(m: Message, u: User): HistoryRow {
    HistoryRow(m.id, m.userId, m.text, u.nickname, u.avatarColor, u.tgUsername, u.role)
  }

  /** The history row a message yields: its columns and its author's, when its author is a user. */
  function JoinAuthor(users: seq<User>): Message -> Option<HistoryRow> {
    (m: Message) =>
      var author := LookupUser(users, m.userId);
      if author.Some? then Some(HistoryRowOf(m, author.value)) else None
  }

  /**
   * `FROM messages m JOIN users u ON m.user_id = u.id`: each message with
   * its author's columns, in message order; a message whose author is not a
   * user yields no row. `users.id` is the primary key, so a message meets
   * at most one user.
   */
  function JoinUsers(messages: seq<Message>, users: seq<User>): seq<HistoryRow> {
    FilterMap(messages, JoinAuthor(users))
  }

  /**
   * The history query: the joined rows ordered newest first (by message id,
   * the order rows are inserted in), the first 100 kept, then reversed so
   * the oldest comes first.
   */
  function History(t: Tables): (r: seq<HistoryRow>)
    ensures var j := JoinUsers(t.messages, t.users);
      r == j[|j| - Min(|j|, HistoryLimit)..] && |r| <= HistoryLimit
  {
    Newest(JoinUsers(t.messages, t.users), HistoryLimit)
  }

  /** Whether a message's author is a user. */
  function HasAuthor(users: seq<User>): Message -> bool {
    (m: Message) => LookupUser(users, m.userId).Some?
  }

  /** The messages whose author is a user: the ones the history join can show. */
  function AuthoredMessages(messages: seq<Message>, users: seq<User>): seq<Message> {
    Select(messages, HasAuthor(users))
  }

  // ------------------------------------------------------------------- properties

  /**
   * A successful registration against the code row at index `i`: one user
   * is appended, with the next id (above every existing one), the role
   * `'admin'` exactly when the code's text is the seed code, and a palette
   * colour; that code row, and no other row, gets the new user as `used_by`.
   */
  lemma RegisterSuccess(t: Tables, nickname: Option<string>, tgUsername: Option<string>,
                        codeId: JsId, random: real, i: int)
    requires Valid(t) && 0.0 <= random < 1.0
    requires IsTruthyText(nickname) && IsTruthyText(tgUsername) && IsTruthyId(codeId)
    requires 0 <= i < |t.codes| && t.codes[i].id == codeId.value
    ensures var (r, t') := Register(t, nickname, tgUsername, codeId, random);
      var role := if t.codes[i].code == SeedCode then AdminRole else UserRole;
      && r.Ok?
      && r.value == Profile(t.nextUserId, nickname.value, tgUsername.value, role, r.value.avatarColor)
      && r.value.avatarColor in Palette
      && (forall k :: 0 <= k < |t.users| ==> t.users[k].id < r.value.id)
      && t'.users == t.users + [NewUser(r.value.id, nickname.value, tgUsername.value, r.value.avatarColor, role)]
      && t'.codes == t.codes[i := t.codes[i].(usedBy := Some(r.value.id))]
      && t'.messages == t.messages
      && t'.nextUserId == t.nextUserId + 1 && t'.nextCodeId == t.nextCodeId
      && t'.nextMessageId == t.nextMessageId
  {
    ValidUnique(t);
    var rows := CodesWithId(t.codes, codeId.value);
    assert rows != [];
    assert rows[0] == t.codes[i];
    var marked := MarkUsed(t.codes, codeId.value, t.nextUserId);
    assert marked == t.codes[i := t.codes[i].(usedBy := Some(t.nextUserId))];
  }

  /** Registration keeps the store valid. */
  lemma RegisterPreservesValid(t: Tables, nickname: Option<string>, tgUsername: Option<string>,
                               codeId: JsId, random: real)
    requires Valid(t) && 0.0 <= random < 1.0
    ensures Valid(Register(t, nickname, tgUsername, codeId, random).1)
  {
    var (r, t') := Register(t, nickname, tgUsername, codeId, random);
    if r.Ok? {
      var i :| 0 <= i < |t.codes| && t.codes[i].id == codeId.value;
      RegisterSuccess(t, nickname, tgUsername, codeId, random, i);
      AddUserMarkCodeValid(t, t', t'.users[|t.users|], i);
    }
  }

  /** Appending the next user and recording it as one code's `used_by` keeps the store valid. */
  lemma AddUserMarkCodeValid(t: Tables, t': Tables, user: User, i: int)
    requires Valid(t) && 0 <= i < |t.codes| && user.id == t.nextUserId
    requires t' == t.(users := t.users + [user], nextUserId := t.nextUserId + 1,
                      codes := t.codes[i := t.codes[i].(usedBy := Some(user.id))])
    ensures Valid(t')
  {
    UsersAppendValid(t, t');
    CodesMarkValid(t, t', i, user.id);
  }

  lemma UsersAppendValid(t: Tables, t': Tables)
    requires Valid(t)
    requires |t'.users| == |t.users| + 1 && t'.users[..|t.users|] == t.users
    requires t'.users[|t.users|].id == t.nextUserId && t'.nextUserId == t.nextUserId + 1
    ensures forall i :: 0 <= i < |t'.users| ==> 1 <= t'.users[i].id < t'.nextUserId
    ensures forall i, j :: 0 <= i < j < |t'.users| ==> t'.users[i].id < t'.users[j].id
  {
    forall i | 0 <= i < |t.users| ensures t'.users[i] == t.users[i] {
      assert t'.users[i] == t'.users[..|t.users|][i];
    }
  }

  lemma CodesMarkValid(t: Tables, t': Tables, i: int, userId: int)
    requires Valid(t) && 0 <= i < |t.codes|
    requires t'.codes == t.codes[i := t.codes[i].(usedBy := Some(userId))]
    requires userId < t'.nextUserId && t.nextUserId <= t'.nextUserId && t'.nextCodeId == t.nextCodeId
    ensures forall k :: 0 <= k < |t'.codes| ==> 1 <= t'.codes[k].id < t'.nextCodeId
    ensures forall k, j :: 0 <= k < j < |t'.codes| ==> t'.codes[k].id < t'.codes[j].id
    ensures forall k :: 0 <= k < |t'.codes| && t'.codes[k].usedBy.Some? ==> t'.codes[k].usedBy.value < t'.nextUserId
    ensures UniqueCodeTexts(t'.codes)
  {
    assert forall k :: 0 <= k < |t'.codes| ==> t'.codes[k].id == t.codes[k].id && t'.codes[k].code == t.codes[k].code;
  }

  /** Once a code has been redeemed through `/api/register`, `/api/check-code` rejects its text. */
  lemma RedeemedCodeFailsCheck(t: Tables, nickname: Option<string>, tgUsername: Option<string>,
                               codeId: JsId, random: real, i: int)
    requires Valid(t) && 0.0 <= random < 1.0
    requires 0 <= i < |t.codes| && IsTruthyId(codeId) && t.codes[i].id == codeId.value
    requires Register(t, nickname, tgUsername, codeId, random).0.Ok?
    ensures CheckCode(Register(t, nickname, tgUsername, codeId, random).1.codes, Some(t.codes[i].code)) == None
  {
    RegisterSuccess(t, nickname, tgUsername, codeId, random, i);
    var codes' := Register(t, nickname, tgUsername, codeId, random).1.codes;
    forall k | 0 <= k < |codes'| && codes'[k].code == t.codes[i].code ensures !Redeemable(codes'[k]) {
      assert k == i;
    }
  }

  /**
   * `/api/register` does not re-check the code's state: a code row that is
   * inactive or already used is accepted again, and its `used_by` is
   * overwritten with the newer user.
   */
  lemma RegisterReusesConsumedCode(t: Tables, nickname: Option<string>, tgUsername: Option<string>,
                                   codeId: JsId, random: real, i: int)
    requires Valid(t) && 0.0 <= random < 1.0
    requires IsTruthyText(nickname) && IsTruthyText(tgUsername) && IsTruthyId(codeId)
    requires 0 <= i < |t.codes| && t.codes[i].id == codeId.value && !Redeemable(t.codes[i])
    ensures var (r, t') := Register(t, nickname, tgUsername, codeId, random);
      r.Ok? && |t'.users| == |t.users| + 1 && t'.codes[i].usedBy == Some(r.value.id)
      && t'.codes[i].usedBy != t.codes[i].usedBy
  {
    RegisterSuccess(t, nickname, tgUsername, codeId, random, i);
  }

  /** A send from a banned user emits one `error` to the sender and changes nothing. */
  lemma SendFromBannedUser(t: Tables, userId: JsId, text: Option<string>, i: int)
    requires UniqueUserIds(t.users)
    requires text.Some? && Trim(text.value) != [] && IsTruthyId(userId)
    requires 0 <= i < |t.users| && t.users[i].id == userId.value && t.users[i].isBanned != 0
    ensures SendMessage(t, userId, text) == ([ErrorToSender(BannedText)], t)
  {
  }

  /**
   * A send from an existing, unbanned user stores exactly one message, with
   * the next message id and the trimmed text, and broadcasts it once with
   * the sender's public profile.
   */
  lemma SendDelivers(t: Tables, userId: JsId, text: Option<string>, i: int)
    requires UniqueUserIds(t.users)
    requires text.Some? && Trim(text.value) != [] && IsTruthyId(userId)
    requires 0 <= i < |t.users| && t.users[i].id == userId.value && t.users[i].isBanned == 0
    ensures var (events, t') := SendMessage(t, userId, text);
      var m := Message(t.nextMessageId, userId.value, Trim(text.value));
      && t' == t.(messages := t.messages + [m], nextMessageId := t.nextMessageId + 1)
      && events == [NewMessageToAll(m.id, m.text, ProfileOf(t.users[i]))]
  {
  }

  /** A send naming no user is still stored, but nothing is broadcast. */
  lemma SendFromUnknownUser(t: Tables, userId: JsId, text: Option<string>)
    requires text.Some? && Trim(text.value) != [] && IsTruthyId(userId)
    requires forall i :: 0 <= i < |t.users| ==> t.users[i].id != userId.value
    ensures var (events, t') := SendMessage(t, userId, text);
      events == [] && t'.messages == t.messages + [Message(t.nextMessageId, userId.value, Trim(text.value))]
  {
  }

  /**
   * `send_message` writes a row exactly when the text is a string that is
   * not blank, the user id is truthy and no user with that id is banned.
   */
  lemma SendWritesExactlyWhen(t: Tables, userId: JsId, text: Option<string>)
    requires UniqueUserIds(t.users)
    ensures var t' := SendMessage(t, userId, text).1;
      (|t'.messages| == |t.messages| + 1) <==>
        (text.Some? && Trim(text.value) != [] && IsTruthyId(userId) &&
         forall i :: 0 <= i < |t.users| && t.users[i].id == userId.value ==> t.users[i].isBanned == 0)
  {
    var t' := SendMessage(t, userId, text).1;
    if text.Some? && Trim(text.value) != [] && IsTruthyId(userId) {
      if i :| 0 <= i < |t.users| && t.users[i].id == userId.value && t.users[i].isBanned != 0 {
        SendFromBannedUser(t, userId, text, i);
      }
    }
  }

  /** Sending keeps the store valid. */
  lemma SendPreservesValid(t: Tables, userId: JsId, text: Option<string>)
    requires Valid(t)
    ensures Valid(SendMessage(t, userId, text).1)
  {
    var t' := SendMessage(t, userId, text).1;
    if t' != t {
      MessagesAppendValid(t, t');
    }
  }

  lemma MessagesAppendValid(t: Tables, t': Tables)
    requires Valid(t)
    requires t'.users == t.users && t'.codes == t.codes
    requires t'.nextUserId == t.nextUserId && t'.nextCodeId == t.nextCodeId
    requires |t'.messages| == |t.messages| + 1 && t'.messages[..|t.messages|] == t.messages
    requires t'.messages[|t.messages|].id == t.nextMessageId && t'.nextMessageId == t.nextMessageId + 1
    ensures Valid(t')
  {
    forall i | 0 <= i < |t.messages| ensures t'.messages[i] == t.messages[i] {
      assert t'.messages[i] == t'.messages[..|t.messages|][i];
    }
  }

  /** History rows in increasing message id order, that is, oldest first. */
  predicate OldestFirst(h: seq<HistoryRow>) {
    forall i, j :: 0 <= i < j < |h| ==> h[i].id < h[j].id
  }

  /** Selecting messages keeps their order: increasing ids stay increasing. */
  lemma {:induction false} SelectKeepsIdOrder(messages: seq<Message>, p: Message -> bool)
    requires IdsIncreasing(messages)
    ensures IdsIncreasing(Select(messages, p))
  {
    if messages != [] {
      var rest := messages[1..];
      DropKeepsIdOrder(messages);
      SelectKeepsIdOrder(rest, p);
      var tail := Select(rest, p);
      forall k | 0 <= k < |tail| ensures messages[0].id < tail[k].id {
        var m :| 0 <= m < |rest| && rest[m] == tail[k];
        assert rest[m] == messages[m + 1];
      }
      if p(messages[0]) {
        ConsKeepsIdOrder(messages[0], tail);
      }
    }
  }

  lemma DropKeepsIdOrder(messages: seq<Message>)
    requires IdsIncreasing(messages) && messages != []
    ensures IdsIncreasing(messages[1..])
  {
    var rest := messages[1..];
    forall i, j | 0 <= i < j < |rest| ensures rest[i].id < rest[j].id {
      assert rest[i] == messages[i + 1] && rest[j] == messages[j + 1];
    }
  }

  lemma ConsKeepsIdOrder(x: Message, tail: seq<Message>)
    requires IdsIncreasing(tail)
    requires forall k :: 0 <= k < |tail| ==> x.id < tail[k].id
    ensures IdsIncreasing([x] + tail)
  {
    var a := [x] + tail;
    forall i, j | 0 <= i < j < |a| ensures a[i].id < a[j].id {
      assert a[j] == tail[j - 1];
      if i > 0 {
        assert a[i] == tail[i - 1];
      }
    }
  }

  /**
   * `h` is the newest `HistoryLimit` messages of `a` (all of them when there
   * are fewer), oldest first, each joined with its author.
   */
  ghost predicate NewestRows(h: seq<HistoryRow>, a: seq<Message>, users: seq<User>) {
    && |h| == Min(|a|, HistoryLimit)
    && MappedFrom(h, a[|a| - |h|..], JoinAuthor(users))
    && OldestFirst(h)
  }

  /**
   * The history is exactly the newest 100 messages whose author is a user
   * (all of them when there are fewer), oldest first, each with its
   * author's columns.
   */
  lemma HistoryIsNewestAuthored(t: Tables)
    requires Valid(t)
    ensures NewestRows(History(t), AuthoredMessages(t.messages, t.users), t.users)
  {
    assert IdsIncreasing(t.messages);
    NewestAuthoredOfIncreasing(t);
  }

  lemma NewestAuthoredOfIncreasing(t: Tables)
    requires IdsIncreasing(t.messages)
    ensures NewestRows(History(t), AuthoredMessages(t.messages, t.users), t.users)
  {
    var a, h := AuthoredMessages(t.messages, t.users), History(t);
    assert |h| == Min(|a|, HistoryLimit) && MappedFrom(h, a[|a| - |h|..], JoinAuthor(t.users)) by {
      JoinAuthorHasAuthor(t.users);
      NewestMapped(t.messages, JoinAuthor(t.users), HasAuthor(t.users), HistoryLimit);
    }
    assert IdsIncreasing(a) by {
      SelectKeepsIdOrder(t.messages, HasAuthor(t.users));
    }
    NewestKeepsIdOrder(h, a, t.users);
  }

  /** A message has an author exactly when the join gives it a row. */
  lemma JoinAuthorHasAuthor(users: seq<User>)
    ensures forall m :: HasAuthor(users)(m) == JoinAuthor(users)(m).Some?
  {
  }

  /** Rows joined from the newest of messages in increasing id order are in increasing id order. */
  lemma NewestKeepsIdOrder(h: seq<HistoryRow>, a: seq<Message>, users: seq<User>)
    requires |h| <= |a| && MappedFrom(h, a[|a| - |h|..], JoinAuthor(users)) && IdsIncreasing(a)
    ensures OldestFirst(h)
  {
    var off := |a| - |h|;
    forall k | 0 <= k < |h| ensures h[k].id == a[off + k].id {
      assert a[off..][k] == a[off + k];
      assert JoinAuthor(users)(a[off + k]) == Some(h[k]);
    }
  }

  /**
   * Start-up to first admin: the seed code checks out as code 1, and
   * registering with it creates user 1 with the role `'admin'`, after which
   * the seed code no longer checks out.
   */
  lemma SeedCodeMakesFirstAdmin(nickname: Option<string>, tgUsername: Option<string>, random: real)
    requires IsTruthyText(nickname) && IsTruthyText(tgUsername) && 0.0 <= random < 1.0
    ensures CheckCode(Seeded().codes, Some(SeedCode)) == Some(1)
    ensures var (r, t') := Register(Seeded(), nickname, tgUsername, Some(1), random);
      && r.Ok? && r.value.id == 1 && r.value.role == AdminRole
      && CheckCode(t'.codes, Some(SeedCode)) == None
  {
    RegisterSuccess(Seeded(), nickname, tgUsername, Some(1), random, 0);
    RedeemedCodeFailsCheck(Seeded(), nickname, tgUsername, Some(1), random, 0);
  }
}
