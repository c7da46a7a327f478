/** `MessagesService`: contact-form messages and their read flag. */
module Messages {
  import opened Common
  import opened Sequences

  /** A row of the `messages` table. */
  datatype Message = Message(id: string, name: string, email: string, message: string, isRead: bool, createdAt: int)

  datatype CreateMessageDto = CreateMessageDto(name: string, email: string, message: string)

  function NotFoundMessage(id: string): string {
    "Message avec l'ID " + id + " non trouvé"
  }

  /** Unique ids (primary key). */
  predicate ValidStore(messages: seq<Message>) {
    forall i, j :: 0 <= i < j < |messages| ==> messages[i].id != messages[j].id
  }

  function IndexOfId(messages: seq<Message>, id: string): Option<nat> {
    FirstIndex(messages, (m: Message) => m.id == id)
  }

  function CreatedAt(m: Message): int { m.createdAt }

  /** `create(dto)`: the DTO's fields, unread (the column default). */
  function NewMessage(dto: CreateMessageDto, id: string, now: int): Message {
    Message(id, dto.name, dto.email, dto.message, false, now)
  }

  // ---------------------------------------------------------------- queries

  /** `findAll`: every message once, newest first. */
  function FindAll(messages: seq<Message>): (r: seq<Message>)
    ensures NewestFirst(r, CreatedAt)
    ensures multiset(r) == multiset(messages)
  {
    SortNewest(messages, CreatedAt)
  }

  /** `findOne`: the message with that id, or NotFound. */
  function FindOne(messages: seq<Message>, id: string): (r: Result<Message>)
    ensures r.Ok? ==> r.value in messages && r.value.id == id
    ensures r.Err? <==> forall m :: m in messages ==> m.id != id
    ensures r.Err? ==> r.error == NotFound(NotFoundMessage(id))
  {
    match IndexOfId(messages, id)
    case None => Err(NotFound(NotFoundMessage(id)))
    case Some(i) => Ok(messages[i])
  }

  // ------------------------------------------------------------ transitions

  function ApplyCreate(messages: seq<Message>, dto: CreateMessageDto, id: string, now: int): (Message, seq<Message>) {
    (NewMessage(dto, id, now), messages + [NewMessage(dto, id, now)])
  }

  /** `markAsRead`: NotFound, or the message with `is_read` set, saved. */
  function ApplyMarkAsRead(messages: seq<Message>, id: string): (Result<Message>, seq<Message>) {
    match IndexOfId(messages, id)
    case None => (Err(NotFound(NotFoundMessage(id))), messages)
    case Some(i) => (Ok(messages[i].(isRead := true)), messages[i := messages[i].(isRead := true)])
  }

  // ------------------------------------------------------------- properties

  /** `create` adds exactly one unread message built from the DTO, which
      then is found by its id. */
  lemma CreateOutcome(messages: seq<Message>, dto: CreateMessageDto, id: string, now: int)
    requires ValidStore(messages)
    requires forall m :: m in messages ==> m.id != id
    ensures var (m, after) := ApplyCreate(messages, dto, id, now);
      && !m.isRead
      && m.name == dto.name && m.email == dto.email && m.message == dto.message
      && multiset(after) == multiset(messages) + multiset{m}
      && ValidStore(after)
      && FindOne(after, id) == Ok(m)
  {
    var (m, after) := ApplyCreate(messages, dto, id, now);
    forall i, j | 0 <= i < j < |after| ensures after[i].id != after[j].id {
      if j == |messages| { assert after[i] in messages; }
    }
    var found := IndexOfId(after, id);
    assert after[|messages|].id == id;
    assert found.Some?;
    assert found.value == |messages|;
  }

  /** `markAsRead` fails exactly for an unknown id; otherwise it sets
      `is_read` on that message and changes nothing else. */
  lemma MarkAsReadOutcome(messages: seq<Message>, id: string)
    requires ValidStore(messages)
    ensures var (r, after) := ApplyMarkAsRead(messages, id);
      && (r.Err? <==> forall m :: m in messages ==> m.id != id)
      && (r.Err? ==> r.error == NotFound(NotFoundMessage(id)) && after == messages)
      && (r.Ok? ==> r.value == FindOne(messages, id).value.(isRead := true) && FindOne(after, id) == r)
      && |after| == |messages|
      && (forall k :: 0 <= k < |messages| ==>
            after[k] == if messages[k].id == id then messages[k].(isRead := true) else messages[k])
      && ValidStore(after)
  {
    var (r, after) := ApplyMarkAsRead(messages, id);
    var found := IndexOfId(messages, id);
    if found.Some? {
      var i := found.value;
      assert after[i].id == id;
      assert forall k :: 0 <= k < i ==> after[k] == messages[k];
      assert IndexOfId(after, id) == found;
      forall k | 0 <= k < |messages| && k != i ensures messages[k].id != id {
        if k < i { } else { assert messages[i].id != messages[k].id; }
      }
    } else {
      forall m | m in messages ensures m.id != id {
        var k :| 0 <= k < |messages| && messages[k] == m;
      }
    }
  }

  /** Marking a message read twice is the same as marking it once. */
  lemma MarkAsReadIdempotent(messages: seq<Message>, id: string)
    ensures var (r1, after1) := ApplyMarkAsRead(messages, id);
      ApplyMarkAsRead(after1, id) == (r1, after1)
  {
    var (r1, after1) := ApplyMarkAsRead(messages, id);
    var found := IndexOfId(messages, id);
    if found.Some? {
      var i := found.value;
      assert after1[i].id == id;
      assert forall k :: 0 <= k < i ==> after1[k] == messages[k];
      assert IndexOfId(after1, id) == found;
      assert after1[i := after1[i].(isRead := true)] == after1;
    }
  }

  // ------------------------------------------------------------------ state

  /** The service with its repository of messages. */
  class MessagesService {
    var messages: seq<Message>

    constructor(initial: seq<Message>)
      requires ValidStore(initial)
      ensures messages == initial
    {
      messages := initial;
    }

    method Create(dto: CreateMessageDto, id: string, now: int) returns (message: Message)
      requires ValidStore(messages)
      requires forall m :: m in messages ==> m.id != id
      modifies this
      ensures ValidStore(messages)
      ensures (message, messages) == ApplyCreate(old(messages), dto, id, now)
    {
      CreateOutcome(messages, dto, id, now);
      message := NewMessage(dto, id, now);
      messages := messages + [message];
    }

    method MarkAsRead(id: string) returns (r: Result<Message>)
      requires ValidStore(messages)
      modifies this
      ensures ValidStore(messages)
      ensures (r, messages) == ApplyMarkAsRead(old(messages), id)
    {
      MarkAsReadOutcome(messages, id);
      r := FindOne(messages, id);
      if r.Err? {
        return;
      }
      var message := r.value.(isRead := true);
      var i := IndexOfId(messages, id).value;
      messages := messages[i := message];
      r := Ok(message);
    }
  }
}
