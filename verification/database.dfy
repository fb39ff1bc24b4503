/**
 * The SQLite bookkeeping of database.py as in-memory tables.
 *
 * Each table is a sequence of rows in insertion (rowid) order, except `users`, whose primary key
 * makes it a map from the user name. AUTOINCREMENT keeps a counter of the largest id ever
 * handed out (SQLite's sqlite_sequence); nothing is ever deleted, so ids strictly increase along
 * a table. Query results without ORDER BY come back in table order; an ORDER BY on the
 * timestamp is specified as "sorted and a permutation", which leaves the order of equal
 * timestamps open, as SQL does.
 */
module Database {
  import opened Wrappers

  type Blob = seq<bv8>

  datatype UserRow = UserRow(passwordHash: Blob, salt: Blob, nickname: string, signature: string, avatarColor: string)
  datatype FriendRow = FriendRow(user: string, friend: string)
  datatype FriendRequest = FriendRequest(id: nat, fromUser: string, toUser: string, status: int)
  datatype MessageRow = MessageRow(id: nat, room: string, sender: string, contentEnc: string, msgType: string,
                                   fileName: Option<string>, timestamp: int)
  datatype IndexRow = IndexRow(trapdoor: string, messageId: int)

  /** One result dictionary of search_encrypted and get_room_history. */
  datatype MessageView = MessageView(id: nat, sender: string, contentEnc: string, msgType: string,
                                     fileName: Option<string>, timestamp: int)
  datatype Profile = Profile(nickname: string, signature: string, avatarColor: string)
  datatype PendingView = PendingView(id: nat, fromUser: string)

  const DefaultSignature: string := "这个人很懒..."
  const DefaultColor: string := "#3498db"
  const HistoryLimit: nat := 100

  function View(m: MessageRow): MessageView
  {
    MessageView(m.id, m.sender, m.contentEnc, m.msgType, m.fileName, m.timestamp)
  }

  // ---------------------------------------------------------------------------------------
  // ORDER BY timestamp
  // ---------------------------------------------------------------------------------------

  predicate InOrder(a: MessageView, b: MessageView, descending: bool)
  {
    if descending then a.timestamp >= b.timestamp else a.timestamp <= b.timestamp
  }

  predicate SortedBy(s: seq<MessageView>, descending: bool)
  {
    forall i, j :: 0 <= i < j < |s| ==> InOrder(s[i], s[j], descending)
  }

  function Insert(x: MessageView, s: seq<MessageView>, descending: bool): (r: seq<MessageView>)
    requires SortedBy(s, descending)
    ensures multiset(r) == multiset(s) + multiset{x} && SortedBy(r, descending)
  {
    if s == [] then [x]
    else if InOrder(x, s[0], descending) then [x] + s
    else
      var rest := Insert(x, s[1..], descending);
      assert s == [s[0]] + s[1..];
      HeadBeforeRest(x, s, rest, descending);
      HeadThenSorted(s[0], rest, descending);
      [s[0]] + rest
  }

  /** The head of an ordered sequence that x does not precede comes before x and the tail. */
  lemma HeadBeforeRest(x: MessageView, s: seq<MessageView>, rest: seq<MessageView>, descending: bool)
    requires SortedBy(s, descending) && s != [] && !InOrder(x, s[0], descending)
    requires multiset(rest) == multiset(s[1..]) + multiset{x}
    ensures forall y :: y in multiset(rest) ==> InOrder(s[0], y, descending)
  {
    forall y | y in multiset(rest)
      ensures InOrder(s[0], y, descending)
    {
      assert y == x || y in s[1..];
    }
  }

  lemma HeadThenSorted(a: MessageView, s: seq<MessageView>, descending: bool)
    requires SortedBy(s, descending)
    requires forall y :: y in multiset(s) ==> InOrder(a, y, descending)
    ensures SortedBy([a] + s, descending)
  {
    forall i, j | 0 <= i < j < |[a] + s|
      ensures InOrder(([a] + s)[i], ([a] + s)[j], descending)
    {
      if i == 0 {
        assert ([a] + s)[j] == s[j - 1] && s[j - 1] in multiset(s);
      }
    }
  }

  /** One admissible result of ORDER BY timestamp: sorted, and a permutation of its input. */
  function SortBy(s: seq<MessageView>, descending: bool): (r: seq<MessageView>)
    ensures multiset(r) == multiset(s) && SortedBy(r, descending)
  {
    if s == [] then []
    else
      assert s == [s[0]] + s[1..];
      Insert(s[0], SortBy(s[1..], descending), descending)
  }

  // ---------------------------------------------------------------------------------------
  // Query results as values
  // ---------------------------------------------------------------------------------------

  /** The message with a given id, if any (ids are unique in a valid table). */
  function MessageById(messages: seq<MessageRow>, id: int): Option<MessageRow>
  {
    if messages == [] then None
    else if messages[0].id == id then Some(messages[0])
    else MessageById(messages[1..], id)
  }

  /** The JOIN of search_encrypted before ordering: one result per matching index row. */
  function JoinRows(messages: seq<MessageRow>, index: seq<IndexRow>, trapdoor: string, room: string): seq<MessageView>
  {
    if index == [] then []
    else
      var m := MessageById(messages, index[0].messageId);
      var rest := JoinRows(messages, index[1..], trapdoor, room);
      if index[0].trapdoor == trapdoor && m.Some? && m.value.room == room then [View(m.value)] + rest else rest
  }

  /** The rows of a room, in table order. */
  function RoomRows(messages: seq<MessageRow>, room: string): seq<MessageView>
  {
    if messages == [] then []
    else (if messages[0].room == room then [View(messages[0])] else []) + RoomRows(messages[1..], room)
  }

  function Prefix<T>(s: seq<T>, k: nat): seq<T>
  {
    if |s| <= k then s else s[..k]
  }

  /** A prefix of an ordered sequence is ordered, and is part of it. */
  lemma SortedPrefix(s: seq<MessageView>, k: nat)
    requires SortedBy(s, false)
    ensures SortedBy(Prefix(s, k), false)
    ensures |Prefix(s, k)| == if |s| <= k then |s| else k
    ensures multiset(Prefix(s, k)) <= multiset(s)
  {
    if |s| > k {
      assert s == s[..k] + s[k..];
    }
  }

  function FriendsOf(friends: seq<FriendRow>, user: string): seq<string>
  {
    if friends == [] then []
    else (if friends[0].user == user then [friends[0].friend] else []) + FriendsOf(friends[1..], user)
  }

  function PendingFor(requests: seq<FriendRequest>, user: string): seq<PendingView>
  {
    if requests == [] then []
    else (if requests[0].toUser == user && requests[0].status == 0 then [PendingView(requests[0].id, requests[0].fromUser)] else [])
         + PendingFor(requests[1..], user)
  }

  /** The request an id and an addressee select, if any. */
  function RequestFor(requests: seq<FriendRequest>, id: int, user: string): Option<FriendRequest>
  {
    if requests == [] then None
    else if requests[0].id == id && requests[0].toUser == user then Some(requests[0])
    else RequestFor(requests[1..], id, user)
  }

  predicate RequestExists(requests: seq<FriendRequest>, fromUser: string, toUser: string)
  {
    exists i :: 0 <= i < |requests| && requests[i].fromUser == fromUser && requests[i].toUser == toUser
  }

  /** `INSERT OR IGNORE` into a table with UNIQUE(user, friend). */
  function InsertOrIgnore(friends: seq<FriendRow>, row: FriendRow): seq<FriendRow>
  {
    if row in friends then friends else friends + [row]
  }

  /** UPDATE friend_requests SET status = s WHERE id = id. */
  function SetStatus(requests: seq<FriendRequest>, id: nat, s: int): (r: seq<FriendRequest>)
    ensures |r| == |requests|
  {
    seq(|requests|, i requires 0 <= i < |requests| =>
      if requests[i].id == id then requests[i].(status := s) else requests[i])
  }

  // ---------------------------------------------------------------------------------------
  // Table invariants
  // ---------------------------------------------------------------------------------------

  predicate MessageIdsIncreasing(messages: seq<MessageRow>, last: nat)
  {
    && (forall i, j :: 0 <= i < j < |messages| ==> messages[i].id < messages[j].id)
    && (forall i :: 0 <= i < |messages| ==> 1 <= messages[i].id <= last)
  }

  predicate RequestIdsIncreasing(requests: seq<FriendRequest>, last: nat)
  {
    && (forall i, j :: 0 <= i < j < |requests| ==> requests[i].id < requests[j].id)
    && (forall i :: 0 <= i < |requests| ==> 1 <= requests[i].id <= last)
  }

  /** UNIQUE(from_user, to_user). */
  predicate RequestPairsUnique(requests: seq<FriendRequest>)
  {
    forall i, j :: 0 <= i < j < |requests| ==>
      !(requests[i].fromUser == requests[j].fromUser && requests[i].toUser == requests[j].toUser)
  }

  /** UNIQUE(user, friend). */
  predicate FriendRowsUnique(friends: seq<FriendRow>)
  {
    forall i, j :: 0 <= i < j < |friends| ==> friends[i] != friends[j]
  }

  /** Friendships are only ever inserted in pairs, so the table is symmetric. */
  predicate FriendsSymmetric(friends: seq<FriendRow>)
  {
    forall r :: r in friends ==> FriendRow(r.friend, r.user) in friends
  }

  class DatabaseManager {
    var users: map<string, UserRow>
    var friends: seq<FriendRow>
    var requests: seq<FriendRequest>
    var lastRequestId: nat
    var messages: seq<MessageRow>
    var lastMessageId: nat
    var searchIndex: seq<IndexRow>

    ghost predicate Valid()
      reads this
    {
      && MessageIdsIncreasing(messages, lastMessageId)
      && RequestIdsIncreasing(requests, lastRequestId)
      && RequestPairsUnique(requests)
      && FriendRowsUnique(friends)
      && FriendsSymmetric(friends)
    }

    /** create_tables on a fresh database file. */
    constructor ()
      ensures Valid()
      ensures users == map[] && friends == [] && requests == [] && messages == [] && searchIndex == []
      ensures lastRequestId == 0 && lastMessageId == 0
    {
      users, friends, requests, messages, searchIndex := map[], [], [], [], [];
      lastRequestId, lastMessageId := 0, 0;
    }

    /** add_search_index: `None` or [] inserts nothing; otherwise one row per trapdoor, in order. */
    method AddSearchIndex(messageId: int, trapdoors: Option<seq<string>>)
      requires Valid()
      modifies this
      ensures Valid()
      ensures searchIndex == old(searchIndex) +
        (if trapdoors.None? then [] else seq(|trapdoors.value|, i requires 0 <= i < |trapdoors.value| => IndexRow(trapdoors.value[i], messageId)))
      ensures users == old(users) && friends == old(friends) && requests == old(requests)
      ensures lastRequestId == old(lastRequestId) && messages == old(messages) && lastMessageId == old(lastMessageId)
    {
      if trapdoors.None? || trapdoors.value == [] {
        return;
      }
      var tds := trapdoors.value;
      for k := 0 to |tds|
        invariant searchIndex == old(searchIndex) + seq(k, i requires 0 <= i < k => IndexRow(tds[i], messageId))
        invariant users == old(users) && friends == old(friends) && requests == old(requests)
        invariant lastRequestId == old(lastRequestId) && messages == old(messages) && lastMessageId == old(lastMessageId)
      {
        searchIndex := searchIndex + [IndexRow(tds[k], messageId)];
      }
    }

    /** search_encrypted: the JOIN, ordered by timestamp, latest first. */
    function SearchEncrypted(trapdoor: string, room: string): (r: seq<MessageView>)
      reads this
      ensures multiset(r) == multiset(JoinRows(messages, searchIndex, trapdoor, room))
      ensures SortedBy(r, true)
    {
      SortBy(JoinRows(messages, searchIndex, trapdoor, room), true)
    }

    /** store_message, with time.time() passed in as `now`; returns the new row's id. */
    method StoreMessage(room: string, sender: string, contentEnc: string, msgType: string,
                        fileName: Option<string>, now: int) returns (msgId: nat)
      requires Valid()
      modifies this
      ensures Valid()
      ensures msgId == old(lastMessageId) + 1 && lastMessageId == msgId
      ensures forall i :: 0 <= i < |old(messages)| ==> old(messages)[i].id < msgId
      ensures messages == old(messages) + [MessageRow(msgId, room, sender, contentEnc, msgType, fileName, now)]
      ensures users == old(users) && friends == old(friends) && requests == old(requests)
      ensures lastRequestId == old(lastRequestId) && searchIndex == old(searchIndex)
    {
      lastMessageId := lastMessageId + 1;
      msgId := lastMessageId;
      messages := messages + [MessageRow(msgId, room, sender, contentEnc, msgType, fileName, now)];
    }

    /** get_room_history: the room's messages, earliest first, at most 100. */
    function RoomHistory(room: string): (r: seq<MessageView>)
      reads this
      ensures SortedBy(r, false)
      ensures |r| == if |RoomRows(messages, room)| <= HistoryLimit then |RoomRows(messages, room)| else HistoryLimit
      ensures multiset(r) <= multiset(RoomRows(messages, room))
    {
      var sorted := SortBy(RoomRows(messages, room), false);
      SortedPrefix(sorted, HistoryLimit);
      Prefix(sorted, HistoryLimit)
    }

    /** register_user: the primary key refuses a second row for the same name. */
    method RegisterUser(username: string, pwdHash: Blob, salt: Blob) returns (ok: bool)
      requires Valid()
      modifies this
      ensures Valid()
      ensures ok <==> username !in old(users)
      ensures users == if ok then old(users)[username := UserRow(pwdHash, salt, username, DefaultSignature, DefaultColor)]
                       else old(users)
      ensures friends == old(friends) && requests == old(requests) && lastRequestId == old(lastRequestId)
      ensures messages == old(messages) && lastMessageId == old(lastMessageId) && searchIndex == old(searchIndex)
    {
      if username in users {
        return false;
      }
      users := users[username := UserRow(pwdHash, salt, username, DefaultSignature, DefaultColor)];
      ok := true;
    }

    function UserProfile(username: string): (r: Option<Profile>)
      reads this
      ensures r.Some? <==> username in users
      ensures r.Some? ==> r.value == Profile(users[username].nickname, users[username].signature, users[username].avatarColor)
    {
      if username in users then
        var u := users[username];
        Some(Profile(u.nickname, u.signature, u.avatarColor))
      else None
    }

    /** update_user_profile: an UPDATE that matches no row changes nothing; the result is always True. */
    method UpdateUserProfile(username: string, nickname: string, signature: string, avatarColor: string) returns (ok: bool)
      requires Valid()
      modifies this
      ensures Valid() && ok
      ensures users == if username in old(users)
                       then old(users)[username := old(users)[username].(nickname := nickname, signature := signature, avatarColor := avatarColor)]
                       else old(users)
      ensures friends == old(friends) && requests == old(requests) && lastRequestId == old(lastRequestId)
      ensures messages == old(messages) && lastMessageId == old(lastMessageId) && searchIndex == old(searchIndex)
    {
      if username in users {
        users := users[username := users[username].(nickname := nickname, signature := signature, avatarColor := avatarColor)];
      }
      ok := true;
    }

    function UserCredentials(username: string): (r: Option<(Blob, Blob)>)
      reads this
      ensures r.Some? <==> username in users
      ensures r.Some? ==> r.value == (users[username].passwordHash, users[username].salt)
    {
      if username in users then Some((users[username].passwordHash, users[username].salt)) else None
    }

    /**
     * send_friend_request: refused for oneself, for an existing friendship in this direction,
     * and, by UNIQUE(from_user, to_user), for any earlier request between the same pair
     * whatever its status.
     */
    method SendFriendRequest(fromUser: string, toUser: string) returns (ok: bool)
      requires Valid()
      modifies this
      ensures Valid()
      ensures ok <==> fromUser != toUser && FriendRow(fromUser, toUser) !in old(friends)
                      && !RequestExists(old(requests), fromUser, toUser)
      ensures ok ==> lastRequestId == old(lastRequestId) + 1
                     && requests == old(requests) + [FriendRequest(lastRequestId, fromUser, toUser, 0)]
      ensures !ok ==> requests == old(requests) && lastRequestId == old(lastRequestId)
      ensures users == old(users) && friends == old(friends)
      ensures messages == old(messages) && lastMessageId == old(lastMessageId) && searchIndex == old(searchIndex)
    {
      if fromUser == toUser {
        return false;
      }
      if FriendRow(fromUser, toUser) in friends {
        return false;
      }
      var k := 0;
      while k < |requests|
        invariant k <= |requests|
        invariant forall i :: 0 <= i < k ==> !(requests[i].fromUser == fromUser && requests[i].toUser == toUser)
      {
        if requests[k].fromUser == fromUser && requests[k].toUser == toUser {
          return false;
        }
        k := k + 1;
      }
      lastRequestId := lastRequestId + 1;
      requests := requests + [FriendRequest(lastRequestId, fromUser, toUser, 0)];
      ok := true;
    }

    function PendingRequests(user: string): (r: seq<PendingView>)
      reads this
      ensures forall v :: v in r <==>
        exists q :: q in requests && q.toUser == user && q.status == 0 && v == PendingView(q.id, q.fromUser)
    {
      PendingForAll(requests, user);
      PendingFor(requests, user)
    }

    /**
     * handle_request: only a request with this id addressed to `currentUser` can be handled.
     * 'accept' inserts the friendship in both directions and sets status 1; any other action
     * sets status 2. The earlier status is not looked at.
     */
    method HandleRequest(reqId: int, action: string, currentUser: string) returns (ok: bool)
      requires Valid()
      modifies this
      ensures Valid()
      ensures ok <==> RequestFor(old(requests), reqId, currentUser).Some?
      ensures !ok ==> friends == old(friends) && requests == old(requests)
      ensures ok ==>
        var req := RequestFor(old(requests), reqId, currentUser).value;
        && requests == SetStatus(old(requests), req.id, if action == "accept" then 1 else 2)
        && friends == (if action == "accept"
                       then InsertOrIgnore(InsertOrIgnore(old(friends), FriendRow(req.fromUser, req.toUser)),
                                           FriendRow(req.toUser, req.fromUser))
                       else old(friends))
      ensures users == old(users) && lastRequestId == old(lastRequestId)
      ensures messages == old(messages) && lastMessageId == old(lastMessageId) && searchIndex == old(searchIndex)
    {
      var found := RequestFor(requests, reqId, currentUser);
      if found.None? {
        return false;
      }
      var sender, receiver := found.value.fromUser, found.value.toUser;
      RequestForIsRow(requests, reqId, currentUser);
      if action == "accept" {
        InsertPairKeepsInvariants(friends, sender, receiver);
        friends := InsertOrIgnore(friends, FriendRow(sender, receiver));
        friends := InsertOrIgnore(friends, FriendRow(receiver, sender));
        SetStatusKeepsIds(requests, found.value.id, 1, lastRequestId);
        requests := SetStatus(requests, found.value.id, 1);
      } else {
        SetStatusKeepsIds(requests, found.value.id, 2, lastRequestId);
        requests := SetStatus(requests, found.value.id, 2);
      }
      ok := true;
    }

    function Friends(user: string): (r: seq<string>)
      reads this
      ensures forall f :: f in r <==> FriendRow(user, f) in friends
    {
      FriendsOfAll(friends, user);
      FriendsOf(friends, user)
    }
  }

  // ---------------------------------------------------------------------------------------
  // Lemmas
  // ---------------------------------------------------------------------------------------

  lemma {:induction false} RequestForIsRow(requests: seq<FriendRequest>, id: int, user: string)
    ensures RequestFor(requests, id, user).Some? ==>
      RequestFor(requests, id, user).value in requests
      && RequestFor(requests, id, user).value.id == id && RequestFor(requests, id, user).value.toUser == user
    ensures RequestFor(requests, id, user).None? ==>
      forall r :: r in requests ==> !(r.id == id && r.toUser == user)
  {
    if requests != [] {
      RequestForIsRow(requests[1..], id, user);
      assert forall r :: r in requests ==> r == requests[0] || r in requests[1..];
    }
  }

  lemma SetStatusKeepsIds(requests: seq<FriendRequest>, id: nat, s: int, last: nat)
    requires RequestIdsIncreasing(requests, last) && RequestPairsUnique(requests)
    ensures RequestIdsIncreasing(SetStatus(requests, id, s), last) && RequestPairsUnique(SetStatus(requests, id, s))
  {
  }

  lemma InsertPairKeepsInvariants(friends: seq<FriendRow>, a: string, b: string)
    requires FriendRowsUnique(friends) && FriendsSymmetric(friends)
    ensures FriendRowsUnique(InsertOrIgnore(InsertOrIgnore(friends, FriendRow(a, b)), FriendRow(b, a)))
    ensures FriendsSymmetric(InsertOrIgnore(InsertOrIgnore(friends, FriendRow(a, b)), FriendRow(b, a)))
  {
    var f1 := InsertOrIgnore(friends, FriendRow(a, b));
    var f2 := InsertOrIgnore(f1, FriendRow(b, a));
    assert forall r :: r in f2 <==> r in friends || r == FriendRow(a, b) || r == FriendRow(b, a);
  }

  /** With unique ids, looking a message up by id finds exactly the row with that id. */
  lemma {:induction false} MessageByIdFinds(messages: seq<MessageRow>, last: nat, m: MessageRow)
    requires MessageIdsIncreasing(messages, last)
    ensures m in messages <==> MessageById(messages, m.id) == Some(m)
  {
    if messages != [] {
      MessageByIdFinds(messages[1..], last, m);
      if m in messages && messages[0] != m {
        var k :| 0 <= k < |messages| && messages[k] == m;
        assert k > 0;
        assert messages[0].id < m.id;
      }
    }
  }

  lemma {:induction false} MessageByIdRow(messages: seq<MessageRow>, id: int)
    ensures MessageById(messages, id).Some? ==>
      MessageById(messages, id).value in messages && MessageById(messages, id).value.id == id
  {
    if messages != [] {
      MessageByIdRow(messages[1..], id);
    }
  }

  /**
   * search_encrypted finds a message exactly when it lies in the room and some index row pairs
   * the trapdoor with its id.
   */
  lemma {:induction false} JoinRowsMembers(messages: seq<MessageRow>, last: nat, index: seq<IndexRow>, trapdoor: string, room: string, m: MessageRow)
    requires MessageIdsIncreasing(messages, last)
    ensures (m in messages && m.room == room && IndexRow(trapdoor, m.id) in index) ==> View(m) in JoinRows(messages, index, trapdoor, room)
    ensures forall v :: v in JoinRows(messages, index, trapdoor, room) ==>
      exists r :: r in messages && r.room == room && IndexRow(trapdoor, r.id) in index && View(r) == v
  {
    MessageByIdFinds(messages, last, m);
    if index != [] {
      JoinRowsMembers(messages, last, index[1..], trapdoor, room, m);
      var found := MessageById(messages, index[0].messageId);
      MessageByIdRow(messages, index[0].messageId);
      if found.Some? {
        assert IndexRow(trapdoor, found.value.id) == index[0] ==> IndexRow(trapdoor, found.value.id) in index;
      }
      assert forall r :: r in index[1..] ==> r in index;
    }
  }

  lemma SearchEncryptedMembers(db: DatabaseManager, trapdoor: string, room: string, m: MessageRow)
    requires db.Valid()
    ensures (m in db.messages && m.room == room && IndexRow(trapdoor, m.id) in db.searchIndex) ==>
      View(m) in db.SearchEncrypted(trapdoor, room)
    ensures forall v :: v in db.SearchEncrypted(trapdoor, room) ==>
      exists r :: r in db.messages && r.room == room && IndexRow(trapdoor, r.id) in db.searchIndex && View(r) == v
  {
    JoinRowsMembers(db.messages, db.lastMessageId, db.searchIndex, trapdoor, room, m);
    var join := JoinRows(db.messages, db.searchIndex, trapdoor, room);
    assert forall v :: v in db.SearchEncrypted(trapdoor, room) <==> v in join by {
      assert multiset(db.SearchEncrypted(trapdoor, room)) == multiset(join);
      forall v
        ensures v in db.SearchEncrypted(trapdoor, room) <==> v in join
      {
        assert v in db.SearchEncrypted(trapdoor, room) <==> v in multiset(db.SearchEncrypted(trapdoor, room));
        assert v in join <==> v in multiset(join);
      }
    }
  }

  lemma {:induction false} RoomRowsMembers(messages: seq<MessageRow>, room: string, v: MessageView)
    ensures v in RoomRows(messages, room) <==> exists m :: m in messages && m.room == room && View(m) == v
  {
    if messages != [] {
      RoomRowsMembers(messages[1..], room, v);
      assert forall m :: m in messages <==> m == messages[0] || m in messages[1..];
    }
  }

  /** LIMIT 100 keeps the earliest messages: whatever it drops is no earlier than what it keeps. */
  lemma HistoryKeepsEarliest(db: DatabaseManager, room: string)
    ensures forall v, w :: v in multiset(RoomRows(db.messages, room)) - multiset(db.RoomHistory(room)) && w in db.RoomHistory(room)
                           ==> w.timestamp <= v.timestamp
  {
    var rows := RoomRows(db.messages, room);
    var sorted := SortBy(rows, false);
    var r := db.RoomHistory(room);
    assert multiset(sorted) == multiset(rows);
    if |sorted| > HistoryLimit {
      assert r == sorted[..HistoryLimit];
      SortedPrefixEarliest(sorted, HistoryLimit);
    } else {
      assert r == sorted;
      assert multiset(rows) - multiset(r) == multiset{};
    }
  }

  /** In an ascending sequence, what a prefix leaves out is no earlier than what it keeps. */
  lemma SortedPrefixEarliest(sorted: seq<MessageView>, k: nat)
    requires SortedBy(sorted, false) && k <= |sorted|
    ensures forall v, w :: v in multiset(sorted) - multiset(sorted[..k]) && w in sorted[..k] ==> w.timestamp <= v.timestamp
  {
    PrefixRemainder(sorted, k);
    forall v, w | v in sorted[k..] && w in sorted[..k]
      ensures w.timestamp <= v.timestamp
    {
      var j :| 0 <= j < |sorted| - k && sorted[k..][j] == v;
      var i :| 0 <= i < k && sorted[..k][i] == w;
      assert sorted[i] == w && sorted[k + j] == v;
    }
  }

  /** What a prefix leaves out of a sequence is the rest of it. */
  lemma PrefixRemainder<T>(s: seq<T>, k: nat)
    requires k <= |s|
    ensures multiset(s) - multiset(s[..k]) == multiset(s[k..])
  {
    assert s == s[..k] + s[k..];
  }

  lemma FriendsOfAll(friends: seq<FriendRow>, user: string)
    ensures forall f :: f in FriendsOf(friends, user) <==> FriendRow(user, f) in friends
  {
    forall f {
      FriendsOfMembers(friends, user, f);
    }
  }

  lemma {:induction false} FriendsOfMembers(friends: seq<FriendRow>, user: string, f: string)
    ensures f in FriendsOf(friends, user) <==> FriendRow(user, f) in friends
  {
    if friends != [] {
      FriendsOfMembers(friends[1..], user, f);
      assert forall r :: r in friends <==> r == friends[0] || r in friends[1..];
    }
  }

  /** get_friends is mutual: b is among a's friends exactly when a is among b's. */
  lemma FriendsMutual(db: DatabaseManager, a: string, b: string)
    requires db.Valid()
    ensures b in db.Friends(a) <==> a in db.Friends(b)
  {
    FriendsOfMembers(db.friends, a, b);
    FriendsOfMembers(db.friends, b, a);
  }

  /** get_pending_requests lists exactly the status-0 requests addressed to the user. */
  lemma PendingForAll(requests: seq<FriendRequest>, user: string)
    ensures forall v :: v in PendingFor(requests, user) <==>
      exists q :: q in requests && q.toUser == user && q.status == 0 && v == PendingView(q.id, q.fromUser)
  {
    forall v {
      PendingMembers(requests, user, v);
    }
  }

  lemma {:induction false} PendingMembers(requests: seq<FriendRequest>, user: string, p: PendingView)
    ensures p in PendingFor(requests, user) <==>
      exists r :: r in requests && r.toUser == user && r.status == 0 && p == PendingView(r.id, r.fromUser)
  {
    if requests != [] {
      PendingMembers(requests[1..], user, p);
      assert forall r :: r in requests <==> r == requests[0] || r in requests[1..];
    }
  }
}
