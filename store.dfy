/**
 * The server's in-memory SQLite database as one mutable object: the three
 * tables and their AUTOINCREMENT counters. The `/api/register` route and
 * the `send_message` event change it one statement at a time; each method
 * is proved to end in the reply and the state the matching function of
 * `Chat` describes, and to keep the schema invariant.
 */
module ChatStore {
  import opened Wrappers
  import opened JsString
  import opened Schema
  import opened Chat

  class Store {
    var users: seq<User>
    var codes: seq<InviteCode>
    var messages: seq<Message>
    var nextUserId: int
    var nextCodeId: int
    var nextMessageId: int

    /** The store as a value. */
    function Snapshot(): Tables
      reads this
    {
      Tables(users, codes, messages, nextUserId, nextCodeId, nextMessageId)
    }

    ghost predicate Valid()
      reads this
    {
      Schema.Valid(Snapshot())
    }

    /** Start-up: create the three empty tables, then insert the seed code. */
    constructor ()
      ensures Valid() && Snapshot() == Seeded()
    {
      users, codes, messages := [], [], [];
      nextUserId, nextCodeId, nextMessageId := 1, 1, 1;
      new;
      // INSERT OR IGNORE INTO invite_codes (code) VALUES ('ADMIN123'): the table is empty.
      codes := codes + [NewCode(nextCodeId, SeedCode)];
      nextCodeId := nextCodeId + 1;
    }

    /** `POST /api/register {nickname, tgUsername, codeId}`; `random` is the `Math.random()` draw. */
    method Register(nickname: Option<string>, tgUsername: Option<string>, codeId: JsId, random: real)
      returns (r: Result<Profile, RegisterError>)
      requires Valid() && 0.0 <= random < 1.0
      modifies this
      ensures Valid()
      ensures (r, Snapshot()) == Chat.Register(old(Snapshot()), nickname, tgUsername, codeId, random)
    {
      ghost var before := Snapshot();
      if !IsTruthyText(nickname) || !IsTruthyText(tgUsername) || !IsTruthyId(codeId) {
        r := Err(MissingFields);
      } else {
        var avatarColor := Palette[AvatarIndex(random)];
        var rows := CodesWithId(codes, codeId.value);
        if |rows| == 0 {
          r := Err(CodeNotFound);
        } else {
          var role := if rows[0].code == SeedCode then AdminRole else UserRole;
          // INSERT INTO users (nickname, tg_username, avatar_color, role)
          var userId := nextUserId;
          users := users + [NewUser(userId, nickname.value, tgUsername.value, avatarColor, role)];
          nextUserId := nextUserId + 1;
          // UPDATE invite_codes SET used_by = ?, used_at = datetime('now') WHERE id = ?
          codes := MarkUsed(codes, codeId.value, userId);
          r := Ok(Profile(userId, nickname.value, tgUsername.value, role, avatarColor));
        }
      }
      assert r == Chat.Register(before, nickname, tgUsername, codeId, random).0;
      assert Snapshot() == Chat.Register(before, nickname, tgUsername, codeId, random).1;
      RegisterPreservesValid(before, nickname, tgUsername, codeId, random);
    }

    /** The `send_message {userId, text}` socket event; returns the events emitted. */
    method SendMessage(userId: JsId, text: Option<string>) returns (events: seq<Event>)
      requires Valid()
      modifies this
      ensures Valid()
      ensures (events, Snapshot()) == Chat.SendMessage(old(Snapshot()), userId, text)
    {
      ghost var before := Snapshot();
      SendPreservesValid(before, userId, text);
      if text.None? {
        // `text.trim()` throws; the catch reports a send failure to the sender.
        events := [ErrorToSender(SendFailedText)];
      } else {
        var trimmedText := Trim(text.value);
        if trimmedText == [] || !IsTruthyId(userId) {
          events := [];
        } else {
          // SELECT is_banned FROM users WHERE id = ?
          var banRow := LookupUser(users, userId.value);
          if banRow.Some? && banRow.value.isBanned != 0 {
            events := [ErrorToSender(BannedText)];
          } else {
            // INSERT INTO messages (user_id, text)
            var id := nextMessageId;
            messages := messages + [Message(id, userId.value, trimmedText)];
            nextMessageId := nextMessageId + 1;
            // SELECT id, nickname, tg_username, avatar_color, role FROM users WHERE id = ?
            var sender := LookupUser(users, userId.value);
            events := if sender.None? then [] else [NewMessageToAll(id, trimmedText, ProfileOf(sender.value))];
          }
        }
      }
      assert events == Chat.SendMessage(before, userId, text).0;
      assert Snapshot() == Chat.SendMessage(before, userId, text).1;
    }
  }
}
