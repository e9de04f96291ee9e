/**
 * The relay of main.go over an in-memory Redis: message ingestion and
 * fan-out, conversation creation, join/leave, rename and the read-side
 * lookups. Each handler is one atomic call; JSON decoding, UUID generation
 * and the clock are inputs.
 */
module Relay {
  import opened Common
  import opened Strconv
  import opened Utf8
  import opened Redis
  import opened Membership
  import Paging

  /** maxMessageLength, compared with Go's byte length of the content. */
  const MaxMessageLength: int := 650
  /** defaultExpiration: 30 days, in seconds. */
  const DefaultExpiration: int := 30 * 24 * 60 * 60
  /** The field of `conv:<id>:meta` that holds the name. */
  const NameField: string := "name"

  /** Message; `kind` is the JSON field "type". */
  datatype Message = Message(uuid: string, content: string, userId: GoInt, convId: string, time: string, kind: string)

  /** Conversation as getConversationInfo reports it. */
  datatype Conversation = Conversation(id: string, members: set<int>, name: string)

  /** One PUBLISH on the bus. */
  datatype Publication = Publication(topic: string, payload: Message)

  /** The body createConversation binds. */
  datatype CreateRequest = CreateRequest(name: string, members: seq<GoInt>)

  /** The body renameConversation binds. */
  datatype RenameRequest = RenameRequest(conversationId: string, newName: string)

  datatype Action = Join | Leave

  /** A user's private fan-out topic, `user:<id>:msgs`. */
  function Topic(user: string): string {
    "user:" + user + ":msgs"
  }

  /** Distinct users have distinct topics. */
  lemma TopicInjective(u: string, v: string)
    ensures Topic(u) == Topic(v) <==> u == v
  {
    if Topic(u) == Topic(v) {
      assert |u| == |v|;
      assert u == Topic(u)[5..5 + |u|];
      assert v == Topic(v)[5..5 + |v|];
    }
  }

  /** The frame decoded and its content is at most 650 bytes long. */
  predicate Accepts(frame: Option<Message>) {
    frame.Some? && ByteLen(frame.value.content) <= MaxMessageLength
  }

  /**
   * The byte bound in characters: ASCII content passes iff it has at most
   * 650 characters, no content over 650 characters passes, and any content
   * of at most 162 characters does.
   */
  lemma AcceptsByCharacters(m: Message)
    ensures IsAscii(m.content) ==> (Accepts(Some(m)) <==> |m.content| <= MaxMessageLength)
    ensures |m.content| > MaxMessageLength ==> !Accepts(Some(m))
    ensures 4 * |m.content| <= MaxMessageLength ==> Accepts(Some(m))
  {
    ByteLenBounds(m.content);
  }

  /** 650 copies of U+00E9 are 650 characters but 1300 bytes, so such a message is dropped. */
  lemma MultiByteContentDropped(m: Message)
    requires m.content == Repeat('é', 650)
    ensures |m.content| == MaxMessageLength && !Accepts(Some(m))
  {
    ByteLenRepeat('é', 650);
  }

  /** `order` lists every element of `users` exactly once. */
  ghost predicate Enumerates(order: seq<string>, users: set<string>) {
    && (forall i, j :: 0 <= i < j < |order| ==> order[i] != order[j])
    && (forall u :: u in order <==> u in users)
  }

  /** One PUBLISH of `payload` to each user of `order`, in that order. */
  function Fanout(order: seq<string>, payload: Message): (pubs: seq<Publication>)
    ensures |pubs| == |order|
    decreases |order|
  {
    if order == [] then []
    else Fanout(order[..|order| - 1], payload) + [Publication(Topic(order[|order| - 1]), payload)]
  }

  /**
   * Fan-out publishes the payload once on the topic of each member and on no
   * other topic: N members cost N publishes.
   */
  lemma {:induction false} FanoutExactlyOnce(order: seq<string>, users: set<string>, payload: Message)
    requires Enumerates(order, users)
    ensures forall p :: p in Fanout(order, payload) ==> p.payload == payload
    ensures forall u :: multiset(Fanout(order, payload))[Publication(Topic(u), payload)] == if u in users then 1 else 0
    decreases |order|
  {
    if order != [] {
      var init, last := order[..|order| - 1], order[|order| - 1];
      assert order == init + [last];
      assert Enumerates(init, users - {last}) by {
        forall u ensures u in init <==> u in users - {last} {
          if u in init {
            var i :| 0 <= i < |init| && init[i] == u;
            assert order[i] == u && order[|order| - 1] == last;
          }
        }
      }
      FanoutExactlyOnce(init, users - {last}, payload);
      forall u ensures multiset(Fanout(order, payload))[Publication(Topic(u), payload)] == if u in users then 1 else 0 {
        TopicInjective(u, last);
      }
    }
  }

  /**
   * A connection subscribed as `q` (the raw `userId` query string of its
   * WebSocket request) receives the message exactly when `q` itself is in
   * the member set. The frame's own `userId` plays no part: the sender is
   * echoed iff its query string is a member, whatever the frame claims.
   */
  lemma SenderEchoedIffMember(order: seq<string>, users: set<string>, q: string, m: Message)
    requires Enumerates(order, users)
    ensures Publication(Topic(q), m) in Fanout(order, m) <==> q in users
  {
    FanoutExactlyOnce(order, users, m);
    assert Publication(Topic(q), m) in Fanout(order, m)
      <==> Publication(Topic(q), m) in multiset(Fanout(order, m));
  }

  /** The member strings createConversation writes: each int formatted with %d. */
  function MemberKeys(members: seq<GoInt>): set<string> {
    set i | 0 <= i < |members| :: Itoa(members[i])
  }

  /** The ints getConversationInfo recovers from member strings; strings Atoi rejects are skipped. */
  function ParsedMembers(keys: set<string>): set<int> {
    set s | s in keys && Atoi(s).Some? :: Atoi(s).value
  }

  /** Reading back the members create wrote gives exactly the distinct ints supplied. */
  lemma ParsedMemberKeys(members: seq<GoInt>)
    ensures ParsedMembers(MemberKeys(members)) == set i | 0 <= i < |members| :: members[i] as int
  {
    forall i | 0 <= i < |members| ensures Atoi(Itoa(members[i])) == Some(members[i] as int) {
      AtoiItoa(members[i]);
    }
    var lhs := ParsedMembers(MemberKeys(members));
    forall x | x in lhs ensures exists i :: 0 <= i < |members| && members[i] as int == x {
      var s :| s in MemberKeys(members) && Atoi(s).Some? && Atoi(s).value == x;
      var i :| 0 <= i < |members| && Itoa(members[i]) == s;
    }
  }

  /** A member list with a repeated id passes the two-member check yet yields one member. */
  lemma RepeatedMemberCollapses(x: GoInt)
    ensures |[x, x]| >= 2 && MemberKeys([x, x]) == {Itoa(x)}
  {
    var keys := MemberKeys([x, x]);
    assert Itoa([x, x][0]) in keys;
    forall s | s in keys ensures s == Itoa(x) {
      var i :| 0 <= i < 2 && Itoa([x, x][i]) == s;
    }
  }

  /** One more member string adds its parsed value, if any. */
  lemma ParsedMembersStep(keys: set<string>, s: string)
    ensures ParsedMembers(keys + {s}) == ParsedMembers(keys) + (if Atoi(s).Some? then {Atoi(s).value} else {})
  {
  }

  /** The member strings of a prefix one element longer. */
  lemma MemberKeysStep(members: seq<GoInt>, i: nat)
    requires i < |members|
    ensures MemberKeys(members[..i + 1]) == MemberKeys(members[..i]) + {Itoa(members[i])}
  {
    assert forall k :: 0 <= k <= i ==> members[..i + 1][k] == members[k];
    assert forall k :: 0 <= k < i ==> members[..i][k] == members[k];
  }

  /** The state create leaves, from the state before it and the request. */
  lemma CreateOutcome(before: Registry, meta: HashSpace, id: string, members: seq<GoInt>, name: string)
    requires WellFormed(before) && HashesWellFormed(meta)
    requires id !in before.convUsers && |members| >= 2
    ensures var after := Create(before, id, MemberKeys(members));
      && WellFormed(after)
      && HashesWellFormed(HSet(meta, id, NameField, name))
      && SMembers(after.convUsers, id) == MemberKeys(members)
      && HGet(HSet(meta, id, NameField, name), id, NameField) == Some(name)
      && ParsedMembers(MemberKeys(members)) == set i | 0 <= i < |members| :: members[i] as int
  {
    assert Itoa(members[0]) in MemberKeys(members);
    CreateKeepsWellFormed(before, id, MemberKeys(members));
    HashCommands(meta, id, NameField, name);
    ParsedMemberKeys(members);
  }

  /** The Redis keyspace the relay uses, and every PUBLISH it has made. */
  class Store {
    var convUsers: SetSpace                       // conv:<id>:users
    var userConvs: HashSpace                      // user:<id>:convs
    var meta: HashSpace                           // conv:<id>:meta
    var logs: map<string, seq<Entry<Message>>>    // conv:<id>, scored by Unix seconds
    var ttl: map<string, int>                     // remaining TTL of conv:<id>, seconds
    var published: seq<Publication>

    ghost predicate Valid()
      reads this
    {
      && WellFormed(Registry(convUsers, userConvs))
      && HashesWellFormed(meta)
      && (forall c :: c in logs ==> Sorted(logs[c]) && UniqueMembers(logs[c]))
    }

    constructor ()
      ensures Valid()
      ensures convUsers == map[] && userConvs == map[] && meta == map[]
      ensures logs == map[] && ttl == map[] && published == []
    {
      convUsers, userConvs, meta := map[], map[], map[];
      logs, ttl, published := map[], map[], [];
    }

    /** The two directions of the membership registry as one value. */
    function Reg(): Registry
      reads this
    {
      Registry(convUsers, userConvs)
    }

    /** getUsersByConversation: SMEMBERS conv:<id>:users, empty when the key is missing. */
    function UsersOf(convId: string): set<string>
      reads this
    {
      SMembers(convUsers, convId)
    }

    function LogOf(convId: string): seq<Entry<Message>>
      reads this
    {
      if convId in logs then logs[convId] else []
    }

    /** What getConversationInfo returns: None when the conversation has no name. */
    function ConversationInfo(convId: string): Option<Conversation>
      reads this
    {
      match HGet(meta, convId, NameField)
      case None => None
      case Some(name) => Some(Conversation(convId, ParsedMembers(UsersOf(convId)), name))
    }

    /** The conversations getConversationsByUser reports for `userId`: listed for the user and named. */
    function NamedConversationsOf(userId: string): set<string>
      reads this
    {
      set c | c in HKeys(userConvs, userId) && HGet(meta, c, NameField).Some?
    }

    /**
     * handleWebSocketMessage: a frame that did not decode, or whose content is
     * over 650 bytes, is dropped. Otherwise its time becomes the server's, it
     * is added to conv:<convId> at score `now` with a fresh 30-day TTL, and it
     * is published once to each member of the conversation.
     */
    method HandleMessage(frame: Option<Message>, now: int, stamp: string) returns (accepted: bool, ghost order: seq<string>)
      requires Valid()
      modifies this
      ensures Valid()
      ensures accepted == Accepts(frame)
      ensures convUsers == old(convUsers) && userConvs == old(userConvs) && meta == old(meta)
      ensures !accepted ==> logs == old(logs) && ttl == old(ttl) && published == old(published)
      ensures accepted ==>
        var m := frame.value.(time := stamp);
        && logs == old(logs)[m.convId := ZAdd(old(LogOf(m.convId)), now, m)]
        && ttl == old(ttl)[m.convId := DefaultExpiration]
        && Enumerates(order, old(UsersOf(m.convId)))
        && published == old(published) + Fanout(order, m)
    {
      order := [];
      ghost var reg := Reg();
      if frame.None? || ByteLen(frame.value.content) > MaxMessageLength {
        return false, order;
      }
      var m := frame.value.(time := stamp);
      ZAddKeepsSortedSet(LogOf(m.convId), now, m);
      logs := logs[m.convId := ZAdd(LogOf(m.convId), now, m)];
      assert forall c :: c in logs ==> Sorted(logs[c]) && UniqueMembers(logs[c]);
      ttl := ttl[m.convId := DefaultExpiration];

      order := Publish(UsersOf(m.convId), m);
      assert Reg() == reg;
      accepted := true;
    }

    /** The publish loop of handleWebSocketMessage: one PUBLISH per member, in SMEMBERS order. */
    method Publish(members: set<string>, m: Message) returns (ghost order: seq<string>)
      modifies this`published
      ensures Enumerates(order, members)
      ensures published == old(published) + Fanout(order, m)
    {
      order := [];
      var pending := members;
      while pending != {}
        invariant pending <= members
        invariant forall i, j :: 0 <= i < j < |order| ==> order[i] != order[j]
        invariant forall u :: u in order <==> u in members - pending
        invariant published == old(published) + Fanout(order, m)
        decreases pending
      {
        var u :| u in pending;
        assert u !in order;
        published := published + [Publication(Topic(u), m)];
        assert (order + [u])[..|order|] == order;
        order := order + [u];
        pending := pending - {u};
      }
    }

    /**
     * createConversation with the generated id `id`: the body must bind, list
     * at least two members (checked first) and name the conversation. On
     * success every member lists `id`, the member set is the supplied ids
     * with repeats collapsed, and the name is stored.
     */
    method CreateConversation(body: Option<CreateRequest>, id: string) returns (r: Result<string, Error>)
      requires Valid()
      requires id !in convUsers && id !in meta
      modifies this
      ensures Valid()
      ensures body.None? ==> r == Err(InvalidInput)
      ensures body.Some? && |body.value.members| < 2 ==> r == Err(TooFewMembers)
      ensures body.Some? && |body.value.members| >= 2 && body.value.name == "" ==> r == Err(NameRequired)
      ensures r.Ok? <==> body.Some? && |body.value.members| >= 2 && body.value.name != ""
      ensures r.Err? ==> convUsers == old(convUsers) && userConvs == old(userConvs) && meta == old(meta)
      ensures r.Ok? ==>
        && r.value == id
        && Reg() == Create(old(Reg()), id, MemberKeys(body.value.members))
        && meta == HSet(old(meta), id, NameField, body.value.name)
        && UsersOf(id) == MemberKeys(body.value.members)
        && ConversationInfo(id) == Some(Conversation(id, set i | 0 <= i < |body.value.members| :: body.value.members[i] as int, body.value.name))
      ensures logs == old(logs) && ttl == old(ttl) && published == old(published)
    {
      if body.None? {
        return Err(InvalidInput);
      }
      var data := body.value;
      if |data.members| < 2 {
        return Err(TooFewMembers);
      }
      if data.name == "" {
        return Err(NameRequired);
      }
      ghost var before := Reg();
      var i := 0;
      while i < |data.members|
        invariant 0 <= i <= |data.members|
        invariant convUsers == before.convUsers && meta == old(meta)
        invariant logs == old(logs) && ttl == old(ttl) && published == old(published)
        invariant userConvs == AddConv(before.userConvs, MemberKeys(data.members[..i]), id)
      {
        AddConvStep(before.userConvs, MemberKeys(data.members[..i]), id, Itoa(data.members[i]));
        MemberKeysStep(data.members, i);
        userConvs := HSet(userConvs, Itoa(data.members[i]), id, Marker);
        i := i + 1;
      }
      assert data.members[..i] == data.members;
      CreateOutcome(before, meta, id, data.members, data.name);
      convUsers := SAdd(convUsers, id, MemberKeys(data.members));
      meta := HSet(meta, id, NameField, data.name);
      r := Ok(id);
    }

    /**
     * joinOrLeaveConversation: both query parameters are required; join adds
     * the user to the member set and the conversation to the user's hash,
     * leave removes both.
     */
    method JoinOrLeave(action: Action, userId: string, convId: string) returns (r: Result<(), Error>)
      requires Valid()
      modifies this
      ensures Valid()
      ensures r.Err? <==> userId == "" || convId == ""
      ensures r.Err? ==> r.error == MissingParameter && Reg() == old(Reg())
      ensures r.Ok? && action == Join ==> Reg() == Membership.Join(old(Reg()), convId, userId)
      ensures r.Ok? && action == Leave ==> Reg() == Membership.Leave(old(Reg()), convId, userId)
      ensures r.Ok? ==> (userId in UsersOf(convId) <==> action == Join)
      ensures meta == old(meta) && logs == old(logs) && ttl == old(ttl) && published == old(published)
    {
      if userId == "" || convId == "" {
        return Err(MissingParameter);
      }
      if action == Join {
        JoinKeepsWellFormed(Reg(), convId, userId);
        convUsers := SAdd(convUsers, convId, {userId});
        userConvs := HSet(userConvs, userId, convId, Marker);
      } else {
        LeaveKeepsWellFormed(Reg(), convId, userId);
        convUsers := SRem(convUsers, convId, userId);
        userConvs := HDel(userConvs, userId, convId);
      }
      r := Ok(());
    }

    /**
     * renameConversation: the body must bind and carry both fields; a
     * conversation whose member set key does not exist is NotFound and its
     * metadata is left alone; otherwise only the name changes.
     */
    method Rename(body: Option<RenameRequest>) returns (r: Result<(), Error>)
      requires Valid()
      modifies this
      ensures Valid()
      ensures body.None? ==> r == Err(InvalidInput)
      ensures body.Some? && (body.value.conversationId == "" || body.value.newName == "") ==> r == Err(MissingParameter)
      ensures body.Some? && body.value.conversationId != "" && body.value.newName != "" ==>
        (r == Err(NotFound) <==> old(UsersOf(body.value.conversationId)) == {})
      ensures r.Ok? <==>
        (body.Some? && body.value.conversationId != "" && body.value.newName != ""
         && old(UsersOf(body.value.conversationId)) != {})
      ensures r.Err? ==> meta == old(meta)
      ensures r.Ok? ==> meta == HSet(old(meta), body.value.conversationId, NameField, body.value.newName)
      ensures r.Ok? ==> (ConversationInfo(body.value.conversationId) ==
        Some(Conversation(body.value.conversationId, ParsedMembers(UsersOf(body.value.conversationId)), body.value.newName)))
      ensures convUsers == old(convUsers) && userConvs == old(userConvs)
      ensures logs == old(logs) && ttl == old(ttl) && published == old(published)
    {
      if body.None? {
        return Err(InvalidInput);
      }
      var data := body.value;
      if data.conversationId == "" || data.newName == "" {
        return Err(MissingParameter);
      }
      ExistsIffMembers(convUsers, data.conversationId);
      if !Exists(convUsers, data.conversationId) {
        return Err(NotFound);
      }
      HashCommands(meta, data.conversationId, NameField, data.newName);
      meta := HSet(meta, data.conversationId, NameField, data.newName);
      r := Ok(());
    }

    /** getConversationInfo: the member strings that parse as ints, and the name. */
    method GetConversationInfo(convId: string) returns (r: Option<Conversation>)
      ensures r == ConversationInfo(convId)
    {
      var memberStrings := UsersOf(convId);
      var members: set<int> := {};
      var rest := memberStrings;
      while rest != {}
        invariant rest <= memberStrings
        invariant members == ParsedMembers(memberStrings - rest)
        decreases rest
      {
        var s :| s in rest;
        var parsed := Atoi(s);
        ParsedMembersStep(memberStrings - rest, s);
        assert memberStrings - (rest - {s}) == (memberStrings - rest) + {s};
        if parsed.Some? {
          members := members + {parsed.value};
        }
        rest := rest - {s};
      }
      assert memberStrings - rest == memberStrings;
      var name := HGet(meta, convId, NameField);
      if name.None? {
        return None;
      }
      r := Some(Conversation(convId, members, name.value));
    }

    /**
     * getConversationsByUser: `userId` is required; each conversation listed
     * in the user's hash is reported once, except those without a name.
     */
    method GetConversationsByUser(userId: string) returns (r: Result<seq<Conversation>, Error>)
      ensures r.Err? <==> userId == ""
      ensures r.Err? ==> r.error == MissingParameter
      ensures r.Ok? ==> forall cv :: cv in r.value <==> cv.id in NamedConversationsOf(userId) && ConversationInfo(cv.id) == Some(cv)
      ensures r.Ok? ==> forall i, j :: 0 <= i < j < |r.value| ==> r.value[i].id != r.value[j].id
    {
      if userId == "" {
        return Err(MissingParameter);
      }
      var conversationIds := HKeys(userConvs, userId);
      var conversations: seq<Conversation> := [];
      var rest := conversationIds;
      while rest != {}
        invariant rest <= conversationIds
        invariant forall cv :: cv in conversations <==>
          cv.id in NamedConversationsOf(userId) && cv.id !in rest && ConversationInfo(cv.id) == Some(cv)
        invariant forall i, j :: 0 <= i < j < |conversations| ==> conversations[i].id != conversations[j].id
        decreases rest
      {
        var convId :| convId in rest;
        var conv := GetConversationInfo(convId);
        if conv.Some? {
          conversations := conversations + [conv.value];
        }
        rest := rest - {convId};
      }
      r := Ok(conversations);
    }

    /** getConversation: `convId` is required; a conversation without a name is a server error. */
    method GetConversation(convId: string) returns (r: Result<Conversation, Error>)
      ensures convId == "" ==> r == Err(MissingParameter)
      ensures convId != "" ==> (r.Ok? <==> ConversationInfo(convId).Some?)
      ensures convId != "" && r.Err? ==> r.error == InfoUnavailable
      ensures r.Ok? ==> Some(r.value) == ConversationInfo(convId) && r.value.id == convId
    {
      if convId == "" {
        return Err(MissingParameter);
      }
      var conv := GetConversationInfo(convId);
      if conv.None? {
        return Err(InfoUnavailable);
      }
      r := Ok(conv.value);
    }

    /**
     * getChatHistory over the stored log of `convId`: the page-th block of
     * pageSize messages, oldest first, and whether the log reaches its end.
     */
    function ChatHistory(convId: string, pageParam: string, pageSizeParam: string): (r: Result<Paging.HistoryPage<Message>, Error>)
      reads this
      ensures r.Err? <==> convId == ""
      ensures r.Ok? ==> var h := r.value; var log := LogOf(convId);
        && h.page == Paging.PositiveParam(pageParam, 1)
        && h.pageSize == Paging.PositiveParam(pageSizeParam, Paging.DefaultPageSize)
        && h.page > 0 && h.pageSize > 0
        && h.msgs == Paging.PageSlice(log, h.page, h.pageSize)
        && |h.msgs| <= h.pageSize
        && (h.hasNextPage <==> |log| >= h.page * h.pageSize)
    {
      if convId != "" then
        Paging.HasNextPageIff(LogOf(convId), convId, pageParam, pageSizeParam);
        Paging.History(LogOf(convId), convId, pageParam, pageSizeParam)
      else
        Paging.History(LogOf(convId), convId, pageParam, pageSizeParam)
    }
  }

  /** A user who belongs to a named conversation finds it in their list, and only such conversations are listed. */
  lemma ListedIffMember(s: Store, userId: string, convId: string)
    requires s.Valid()
    ensures convId in s.NamedConversationsOf(userId) <==> userId in s.UsersOf(convId) && s.ConversationInfo(convId).Some?
  {
    assert InConv(s.Reg(), convId, userId) <==> Lists(s.Reg(), userId, convId);
  }
}
