/** The chat routes of app/api/chat/routers.py: participant normalisation
    and validation when creating a chat, membership guards on sending and
    reading messages, and starting a chat by username. */
module ChatRoutes {
  import opened Common
  import opened Chats

  const EmptyParticipants := HttpError(400, "Participants cannot be empty.")
  const InvalidParticipants :=
    HttpError(400, "Participants must be user IDs (int) or anonymous IDs starting with 'anon_'.")
  const CannotSend := HttpError(403, "You do not have permission to send messages in this chat.")
  const AccessDenied := HttpError(403, "Access to this chat is denied.")
  const SendFailed := HttpError(500, "Error sending message.")
  const FetchFailed := HttpError(500, "Error fetching messages.")
  const StartFailed := HttpError(500, "Could not start chat.")

  function UserNotFound(username: string): HttpError
  {
    HttpError(404, "User with username '" + username + "' not found.")
  }

  /** `list(set(request.participants + [current_user_id]))`. */
  function NormaliseParticipants(requested: seq<Participant>, current: int): seq<Participant>
  {
    Dedup(requested + [UserId(current)])
  }

  /** The normalised list holds the requested participants and the caller,
      each once; so it is never empty. */
  lemma NormalisedParticipants(requested: seq<Participant>, current: int)
    ensures var ps := NormaliseParticipants(requested, current);
      && UserId(current) in ps
      && NoDuplicates(ps)
      && (forall p :: p in ps <==> p in requested || p == UserId(current))
      && ps != []
  {
    assert UserId(current) in requested + [UserId(current)];
  }

  /** An int, or a string starting with "anon_". */
  predicate ValidParticipant(p: Participant)
  {
    p.UserId? || StartsWith(p.text, "anon_")
  }

  /** The two checks made before calling the service. */
  function CheckParticipants(ps: seq<Participant>): Option<HttpError>
  {
    if ps == [] then Some(EmptyParticipants)
    else if !(forall i :: 0 <= i < |ps| ==> ValidParticipant(ps[i])) then Some(InvalidParticipants)
    else None
  }

  /** On normalised participants the empty check never fires, and the
      validity check refuses exactly when some requested participant is
      neither an int nor an "anon_" string. */
  lemma CheckOfNormalised(requested: seq<Participant>, current: int)
    ensures CheckParticipants(NormaliseParticipants(requested, current)) != Some(EmptyParticipants)
    ensures CheckParticipants(NormaliseParticipants(requested, current)).None?
      <==> forall i :: 0 <= i < |requested| ==> ValidParticipant(requested[i])
  {
    var ps := NormaliseParticipants(requested, current);
    NormalisedParticipants(requested, current);
    if forall i :: 0 <= i < |requested| ==> ValidParticipant(requested[i]) {
      forall i | 0 <= i < |ps|
        ensures ValidParticipant(ps[i])
      {
        assert ps[i] in ps;
        if ps[i] != UserId(current) {
          var j :| 0 <= j < |requested| && requested[j] == ps[i];
        }
      }
    } else {
      var j :| 0 <= j < |requested| && !ValidParticipant(requested[j]);
      assert requested[j] in ps;
      var i :| 0 <= i < |ps| && ps[i] == requested[j];
    }
  }

  /** A service `ValueError` becomes a 400 carrying its message. */
  function ValueErrorAs400<T>(r: Result<T>): Response<T>
  {
    match r
    case Success(v) => Ok(v)
    case Failure(msg) => Fail(HttpError(400, msg))
  }

  /** Any other failure of the service call is answered with a fixed 500. */
  function ErrorAs500<T>(r: Result<T>, e: HttpError): Response<T>
  {
    match r
    case Success(v) => Ok(v)
    case Failure(_) => Fail(e)
  }

  /** `create_chat`: refuse invalid participants with 400 before the
      service is called; otherwise store a chat whose participants are the
      normalised list. */
  method CreateChat(svc: ChatService, requested: seq<Participant>, current: int) returns (r: Response<nat>)
    requires svc.Valid()
    modifies svc
    ensures svc.Valid() && svc.users == old(svc.users)
    ensures !(forall i :: 0 <= i < |requested| ==> ValidParticipant(requested[i])) ==>
      r == Fail(InvalidParticipants) && svc.chats == old(svc.chats) && svc.nextId == old(svc.nextId)
    ensures (forall i :: 0 <= i < |requested| ==> ValidParticipant(requested[i])) ==>
      && r == Ok(old(svc.nextId))
      && svc.chats == old(svc.chats) + [Chat(old(svc.nextId), NormaliseParticipants(requested, current), [])]
  {
    var participants := NormaliseParticipants(requested, current);
    CheckOfNormalised(requested, current);
    NormalisedParticipants(requested, current);
    var err := CheckParticipants(participants);
    if err.Some? {
      return Fail(err.value);
    }
    DedupOfDistinct(participants);
    var created := svc.CreateChat(participants);
    r := ValueErrorAs400(created);
  }

  /** `send_message`: 403 unless the chat exists and the caller is one of its
      participants; a service error (blank text) becomes 500. */
  method SendMessage(svc: ChatService, chatId: nat, current: int, senderId: Participant, text: string)
    returns (r: Response<string>)
    requires svc.Valid()
    modifies svc
    ensures svc.Valid() && svc.users == old(svc.users) && svc.nextId == old(svc.nextId)
    ensures var chat := FindChat(old(svc.chats), chatId);
      chat.None? || UserId(current) !in chat.value.participants ==>
        r == Fail(CannotSend) && svc.chats == old(svc.chats)
    ensures var chat := FindChat(old(svc.chats), chatId);
      chat.Some? && UserId(current) in chat.value.participants && Blank(text) ==>
        r == Fail(SendFailed) && svc.chats == old(svc.chats)
    ensures var chat := FindChat(old(svc.chats), chatId);
      chat.Some? && UserId(current) in chat.value.participants && !Blank(text) ==>
        r == Ok("message sent") && svc.chats == PushMessage(old(svc.chats), chatId, Message(senderId, text))
  {
    var chat := FindChat(svc.chats, chatId);
    if chat.None? || UserId(current) !in chat.value.participants {
      return Fail(CannotSend);
    }
    var sent := svc.AddMessage(chatId, senderId, text);
    r := ErrorAs500(sent, SendFailed);
  }

  /** `get_chat_messages`: 403 unless the chat exists and the caller is one
      of its participants; otherwise the messages. */
  function GetChatMessages(chats: seq<Chat>, chatId: nat, current: int): (r: Response<seq<Message>>)
    ensures r.Ok? <==> FindChat(chats, chatId).Some? && UserId(current) in FindChat(chats, chatId).value.participants
    ensures r.Ok? ==> r.value == FindChat(chats, chatId).value.messages
    ensures r.Fail? ==> r.error == AccessDenied
  {
    var chat := FindChat(chats, chatId);
    if chat.None? || UserId(current) !in chat.value.participants then Fail(AccessDenied)
    else ErrorAs500(Messages(chats, chatId), FetchFailed)
  }

  /** What a reader of one chat sees, including whether it may read at all,
      is not changed by a message pushed onto another chat. */
  lemma ReadIsolated(chats: seq<Chat>, chatId: nat, other: nat, m: Message, current: int)
    requires other != chatId
    ensures GetChatMessages(PushMessage(chats, other, m), chatId, current) == GetChatMessages(chats, chatId, current)
  {
    if FindChat(chats, other).Some? {
      PushMessageEffect(chats, other, m);
    }
  }

  /** The caller can read the chat it just created, and it is empty; a user
      it did not name cannot. */
  lemma CreatorCanRead(chats: seq<Chat>, nextId: nat, requested: seq<Participant>, current: int, other: int)
    requires IdsBelow(chats, nextId)
    requires UserId(other) !in requested && other != current
    ensures var chats' := chats + [Chat(nextId, NormaliseParticipants(requested, current), [])];
      && GetChatMessages(chats', nextId, current) == Ok([])
      && GetChatMessages(chats', nextId, other) == Fail(AccessDenied)
  {
    NormalisedParticipants(requested, current);
    var chats' := chats + [Chat(nextId, NormaliseParticipants(requested, current), [])];
    assert chats'[|chats|].id == nextId;
    assert forall j :: 0 <= j < |chats| ==> chats'[j] == chats[j];
    assert ChatIndex(chats', nextId) == |chats|;
  }

  /** A message sent by a participant is read back last, after the earlier
      messages, by every participant. */
  lemma SendThenRead(chats: seq<Chat>, chatId: nat, current: int, reader: int, m: Message)
    requires FindChat(chats, chatId).Some?
    requires UserId(reader) in FindChat(chats, chatId).value.participants
    ensures GetChatMessages(PushMessage(chats, chatId, m), chatId, reader)
      == Ok(FindChat(chats, chatId).value.messages + [m])
  {
    PushMessageEffect(chats, chatId, m);
  }

  /** `start_chat_by_name`: 404 when the username is unknown or its id is 0
      (falsy); otherwise a chat of the caller and that user. */
  method StartChatByName(svc: ChatService, username: string, current: int) returns (r: Response<nat>)
    requires svc.Valid()
    modifies svc
    ensures svc.Valid() && svc.users == old(svc.users)
    ensures var target := UserIdByName(old(svc.users), username);
      target.None? || target.value == 0 ==>
        r == Fail(UserNotFound(username)) && svc.chats == old(svc.chats) && svc.nextId == old(svc.nextId)
    ensures var target := UserIdByName(old(svc.users), username);
      target.Some? && target.value != 0 ==>
        && r == Ok(old(svc.nextId))
        && svc.chats == old(svc.chats) + [Chat(old(svc.nextId), Dedup([UserId(current), UserId(target.value)]), [])]
  {
    var target := UserIdByName(svc.users, username);
    if target.None? || target.value == 0 {
      return Fail(UserNotFound(username));
    }
    var created := svc.CreateChat([UserId(current), UserId(target.value)]);
    r := ErrorAs500(created, StartFailed);
  }

  /** The participants of a chat started by name are the caller and the
      target, once each (one entry when they are the same user). */
  lemma StartedChatParticipants(current: int, target: int)
    ensures forall p :: p in Dedup([UserId(current), UserId(target)]) <==> p == UserId(current) || p == UserId(target)
    ensures |Dedup([UserId(current), UserId(target)])| == if current == target then 1 else 2
  {
    var s := [UserId(current), UserId(target)];
    assert s[..1] == [UserId(current)];
    assert Dedup(s[..1]) == [UserId(current)] by {
      assert s[..1][..0] == [];
    }
  }

  /** `get_user_chats`: the chats the caller takes part in. */
  function GetUserChats(chats: seq<Chat>, current: int): (r: Response<seq<ChatSummary>>)
    ensures r.Ok?
    ensures forall s :: s in r.value <==>
      exists i :: 0 <= i < |chats| && UserId(current) in chats[i].participants && s == Summary(chats[i])
  {
    ChatsOfExactly(chats, UserId(current));
    Ok(ChatsOf(chats, UserId(current)))
  }
}
