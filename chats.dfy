/** The chat store of app/services/chat_service/chat_service.py: a `chats`
    collection of documents `{participants, messages}` and a `users`
    collection consulted by username. Collections are sequences in their
    natural order; a lookup returns the first matching document, as
    `find_one` does. */
module Chats {
  import opened Common

  /** A chat participant: a user id or any other string (the router only
      lets through strings starting with "anon_"). */
  datatype Participant = UserId(id: int) | TextId(text: string)

  datatype Message = Message(senderId: Participant, text: string)

  /** A chat document; `id` stands for its ObjectId. */
  datatype Chat = Chat(id: nat, participants: seq<Participant>, messages: seq<Message>)

  /** What `get_chats_by_user` lists for one chat. */
  datatype ChatSummary = ChatSummary(chatId: nat, participants: seq<Participant>)

  /** A document of the `users` collection, as far as the chat code reads it. */
  datatype UserDoc = UserDoc(username: string, id: int)

  const EmptyChat := "Chat must have at least one participant."
  const EmptyMessage := "Message cannot be empty."

  function ChatNotFound(chatId: nat): string
  {
    "Chat with ID " + IntToString(chatId) + " not found."
  }

  predicate NoDuplicates<T(==)>(s: seq<T>)
  {
    forall i, j :: 0 <= i < j < |s| ==> s[i] != s[j]
  }

  /** `list(set(s))`: the same elements, each once. Python leaves the order
      open; this keeps first occurrences. */
  function Dedup(s: seq<Participant>): (r: seq<Participant>)
    ensures NoDuplicates(r)
    ensures forall x :: x in r <==> x in s
    ensures |r| <= |s|
  {
    if s == [] then []
    else
      var r := Dedup(s[..|s| - 1]);
      if s[|s| - 1] in r then r else r + [s[|s| - 1]]
  }

  /** A list without duplicates comes out of `Dedup` as it went in, so
      deduplicating twice is deduplicating once. */
  lemma {:induction false} DedupOfDistinct(s: seq<Participant>)
    requires NoDuplicates(s)
    ensures Dedup(s) == s
  {
    if s != [] {
      var p := s[..|s| - 1];
      assert NoDuplicates(p);
      DedupOfDistinct(p);
      assert s[|s| - 1] !in p;
      assert p + [s[|s| - 1]] == s;
    }
  }

  /** Python's `str.isspace` on one character. */
  predicate IsSpace(c: char)
  {
    var n := c as int;
    || 9 <= n <= 13 || 28 <= n <= 32 || n == 0x85 || n == 0xA0 || n == 0x1680
    || 0x2000 <= n <= 0x200A || n == 0x2028 || n == 0x2029 || n == 0x202F
    || n == 0x205F || n == 0x3000
  }

  /** `not text.strip()`: the text is empty or whitespace only. */
  predicate Blank(text: string)
  {
    forall i :: 0 <= i < |text| ==> IsSpace(text[i])
  }

  /** Chat ids strictly increase along the collection and stay below the
      next id to hand out. */
  ghost predicate IdsBelow(chats: seq<Chat>, nextId: nat)
  {
    && (forall i, j :: 0 <= i < j < |chats| ==> chats[i].id < chats[j].id)
    && (forall i :: 0 <= i < |chats| ==> chats[i].id < nextId)
  }

  /** Position of the first chat with the given id, or -1. */
  function ChatIndex(chats: seq<Chat>, chatId: nat): (k: int)
    ensures -1 <= k < |chats|
    ensures 0 <= k ==> chats[k].id == chatId && forall j :: 0 <= j < k ==> chats[j].id != chatId
    ensures k < 0 ==> forall j :: 0 <= j < |chats| ==> chats[j].id != chatId
    decreases |chats|
  {
    if chats == [] then -1
    else if chats[0].id == chatId then 0
    else
      var k := ChatIndex(chats[1..], chatId);
      if k < 0 then -1 else k + 1
  }

  /** The chat document with that id, or nothing. */
  function FindChat(chats: seq<Chat>, chatId: nat): (r: Option<Chat>)
    ensures r.Some? <==> exists j :: 0 <= j < |chats| && chats[j].id == chatId
    ensures r.Some? ==> r.value in chats && r.value.id == chatId
  {
    var k := ChatIndex(chats, chatId);
    if k < 0 then None else Some(chats[k])
  }

  /** `get_messages`: the stored messages, or the not-found error. */
  function Messages(chats: seq<Chat>, chatId: nat): (r: Result<seq<Message>>)
    ensures r.Success? <==> exists c :: c in chats && c.id == chatId
    ensures r.Success? ==> exists c :: c in chats && c.id == chatId && r.value == c.messages
    ensures r.Failure? ==> r.message == ChatNotFound(chatId)
  {
    match FindChat(chats, chatId)
    case None => Failure(ChatNotFound(chatId))
    case Some(c) => Success(c.messages)
  }

  /** The collection after `$push` of a message onto a chat's messages. */
  function PushMessage(chats: seq<Chat>, chatId: nat, m: Message): seq<Chat>
  {
    var k := ChatIndex(chats, chatId);
    if k < 0 then chats else chats[k := chats[k].(messages := chats[k].messages + [m])]
  }

  function Summary(c: Chat): ChatSummary
  {
    ChatSummary(c.id, c.participants)
  }

  /** `get_chats_by_user`: the summaries of the chats whose participants
      contain the user, in collection order. */
  function ChatsOf(chats: seq<Chat>, user: Participant): seq<ChatSummary>
  {
    if chats == [] then []
    else (if user in chats[0].participants then [Summary(chats[0])] else []) + ChatsOf(chats[1..], user)
  }

  /** `get_chats_by_user` lists exactly the chats the user takes part in. */
  lemma {:induction false} ChatsOfExactly(chats: seq<Chat>, user: Participant)
    ensures forall s :: s in ChatsOf(chats, user) <==>
      exists i :: 0 <= i < |chats| && user in chats[i].participants && s == Summary(chats[i])
  {
    if chats != [] {
      ChatsOfExactly(chats[1..], user);
      forall s | s in ChatsOf(chats, user)
        ensures exists i :: 0 <= i < |chats| && user in chats[i].participants && s == Summary(chats[i])
      {
        if !(user in chats[0].participants && s == Summary(chats[0])) {
          assert s in ChatsOf(chats[1..], user);
          var i :| 0 <= i < |chats[1..]| && user in chats[1..][i].participants && s == Summary(chats[1..][i]);
          assert chats[i + 1] == chats[1..][i];
        }
      }
      forall s | exists i :: 0 <= i < |chats| && user in chats[i].participants && s == Summary(chats[i])
        ensures s in ChatsOf(chats, user)
      {
        var i :| 0 <= i < |chats| && user in chats[i].participants && s == Summary(chats[i]);
        if i > 0 {
          assert chats[1..][i - 1] == chats[i];
        }
      }
    }
  }

  /** `get_user_id_by_username`: the id of the first user document with that
      username, or nothing. */
  function UserIdByName(users: seq<UserDoc>, username: string): (r: Option<int>)
    ensures r.None? <==> forall j :: 0 <= j < |users| ==> users[j].username != username
    ensures r.Some? ==> exists j :: 0 <= j < |users| && users[j].username == username && users[j].id == r.value
    decreases |users|
  {
    if users == [] then None
    else if users[0].username == username then Some(users[0].id)
    else
      var r := UserIdByName(users[1..], username);
      assert r.Some? ==> exists j :: 0 <= j < |users[1..]| && users[1..][j].username == username && users[1..][j].id == r.value;
      r
  }

  /** A successful push adds the message at the end of that chat's messages
      and leaves its participants, and every other chat, as they were. */
  lemma PushMessageEffect(chats: seq<Chat>, chatId: nat, m: Message)
    requires FindChat(chats, chatId).Some?
    ensures var chats' := PushMessage(chats, chatId, m);
      && Messages(chats', chatId) == Success(FindChat(chats, chatId).value.messages + [m])
      && FindChat(chats', chatId).value.participants == FindChat(chats, chatId).value.participants
      && forall x :: x != chatId ==> FindChat(chats', x) == FindChat(chats, x)
  {
    var k := ChatIndex(chats, chatId);
    var c := chats[k].(messages := chats[k].messages + [m]);
    var chats' := chats[k := c];
    assert forall j :: 0 <= j < |chats| ==> chats'[j].id == chats[j].id;
    assert chats'[k] == c;
    assert ChatIndex(chats', chatId) == k;
    forall x | x != chatId
      ensures FindChat(chats', x) == FindChat(chats, x)
    {
      var b := ChatIndex(chats, x);
      if b >= 0 {
        assert chats'[b] == chats[b];
        assert ChatIndex(chats', x) == b;
      } else {
        assert ChatIndex(chats', x) < 0;
      }
    }
  }

  /** The chat collections of the MongoDB database the service talks to. */
  class ChatService {
    var chats: seq<Chat>
    var users: seq<UserDoc>
    var nextId: nat

    ghost predicate Valid()
      reads this
    {
      IdsBelow(chats, nextId)
    }

    constructor (users: seq<UserDoc>)
      ensures Valid() && chats == [] && this.users == users
    {
      chats := [];
      this.users := users;
      nextId := 0;
    }

    /** `create_chat`: rejects an empty list; otherwise stores a new chat
        with the participants deduplicated and no messages. */
    method CreateChat(participants: seq<Participant>) returns (r: Result<nat>)
      requires Valid()
      modifies this
      ensures Valid() && users == old(users)
      ensures participants == [] ==>
        r == Failure(EmptyChat) && chats == old(chats) && nextId == old(nextId)
      ensures participants != [] ==>
        && r == Success(old(nextId))
        && chats == old(chats) + [Chat(old(nextId), Dedup(participants), [])]
        && nextId == old(nextId) + 1
    {
      if participants == [] {
        return Failure(EmptyChat);
      }
      var distinct := Dedup(participants);
      var id := nextId;
      chats := chats + [Chat(id, distinct, [])];
      nextId := nextId + 1;
      r := Success(id);
    }

    /** `add_message`: blank text is refused before any lookup, a missing
        chat is refused, otherwise the message is pushed onto that chat. */
    method AddMessage(chatId: nat, senderId: Participant, text: string) returns (r: Result<string>)
      requires Valid()
      modifies this
      ensures Valid() && users == old(users) && nextId == old(nextId)
      ensures Blank(text) ==> r == Failure(EmptyMessage) && chats == old(chats)
      ensures !Blank(text) && FindChat(old(chats), chatId).None? ==>
        r == Failure(ChatNotFound(chatId)) && chats == old(chats)
      ensures !Blank(text) && FindChat(old(chats), chatId).Some? ==>
        r == Success("message sent") && chats == PushMessage(old(chats), chatId, Message(senderId, text))
    {
      if Blank(text) {
        return Failure(EmptyMessage);
      }
      var k := ChatIndex(chats, chatId);
      if k < 0 {
        return Failure(ChatNotFound(chatId));
      }
      var chat := chats[k];
      assert forall j :: 0 <= j < |chats| ==> chats[k := chat.(messages := chat.messages + [Message(senderId, text)])][j].id == chats[j].id;
      chats := chats[k := chat.(messages := chat.messages + [Message(senderId, text)])];
      r := Success("message sent");
    }
  }
}
