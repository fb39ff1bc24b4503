/**
 * The evaluator side of the chat server (server/chat_server.py, `handle_client`).
 *
 * The server keeps three pieces of shared state: the message store, the trapdoor search index
 * (trapdoor -> list of message ids) and the list of encrypted salaries. Each connection has its
 * own login gate, `current_user`. One request is handled per call of `Connection.Handle`, whose
 * reply is returned instead of being sent on the socket.
 *
 * The user-account calls go to a database module that is not part of this model: their answers
 * (registration result, password check, friend list, add-friend result) are passed in as
 * `DatabaseAnswers`.
 */
module ChatServer {
  import opened Wrappers
  import Paillier

  datatype StoredMessage = StoredMessage(sender: string, target: string, content: string)

  /** A decoded request; a missing `target` is `None`, a missing `trapdoors` list is []. */
  datatype Request =
    | Register(username: string, password: string)
    | Login(username: string, password: string)
    | GetFriends
    | AddFriend(friendName: string)
    | SendMsg(target: Option<string>, cipherText: string, trapdoors: seq<string>)
    | Search(trapdoor: string)
    | PirQuery(queryVector: seq<nat>, pubKey: Paillier.PublicKey)
    | ComputeSalary(encSalary: nat)
    | GetAvgSalary(pubKey: Paillier.PublicKey)
    | Unknown(action: string)

  datatype Reply =
    | Status(status: string, msg: string)
    | FriendList(friends: seq<string>)
    | MsgAck(target: string, content: string)
    | SearchRes(results: seq<StoredMessage>)
    | PirRes(result: nat)
    | SalaryRes(encSum: nat, count: nat)

  /**
   * What one request leads to: a reply, nothing at all, or the end of the connection
   * (an exception inside the loop, here only the division by n*n == 0 in `add`).
   */
  datatype Outcome = Send(reply: Reply) | NoReply | Disconnect

  /** The answers of the account database for the request at hand. */
  datatype DatabaseAnswers = DatabaseAnswers(registered: bool, credentialsOk: bool, friends: seq<string>, friendAdded: bool)

  const LoginFirst: string := "请先登录"

  /** `not current_user` is false: someone is logged in under a non-empty name. */
  predicate LoggedIn(user: Option<string>)
  {
    user.Some? && user.value != ""
  }

  function TargetOf(target: Option<string>): string
  {
    if target.Some? then target.value else "ALL"
  }

  // ---------------------------------------------------------------------------------------
  // The trapdoor index as a value
  // ---------------------------------------------------------------------------------------

  /** Every id the index holds names a stored message. */
  ghost predicate IndexBounded(index: map<string, seq<nat>>, size: nat)
  {
    forall td, i :: td in index && 0 <= i < |index[td]| ==> index[td][i] < size
  }

  function IdsOf(index: map<string, seq<nat>>, td: string): seq<nat>
  {
    if td in index then index[td] else []
  }

  /** One pass of the trapdoor loop: create the list if absent, then append the id. */
  function AppendId(index: map<string, seq<nat>>, td: string, id: nat): map<string, seq<nat>>
  {
    index[td := IdsOf(index, td) + [id]]
  }

  /** The whole trapdoor loop of SEND_MSG. */
  function IndexAll(index: map<string, seq<nat>>, tds: seq<string>, id: nat): map<string, seq<nat>>
    decreases |tds|
  {
    if tds == [] then index else IndexAll(AppendId(index, tds[0], id), tds[1..], id)
  }

  function Count(tds: seq<string>, td: string): nat
  {
    if tds == [] then 0 else (if tds[0] == td then 1 else 0) + Count(tds[1..], td)
  }

  function Repeat<T>(x: T, k: nat): (r: seq<T>)
    ensures |r| == k && forall i :: 0 <= i < k ==> r[i] == x
  {
    seq(k, _ => x)
  }

  /**
   * After indexing a message under `tds`, trapdoor `td` is present iff it was before or occurs
   * in `tds`, and its list gains the new id once per occurrence, duplicates kept.
   */
  lemma {:induction false} IndexAllEntry(index: map<string, seq<nat>>, tds: seq<string>, id: nat, td: string)
    ensures td in IndexAll(index, tds, id) <==> td in index || td in tds
    ensures IdsOf(IndexAll(index, tds, id), td) == IdsOf(index, td) + Repeat(id, Count(tds, td))
    decreases |tds|
  {
    if tds != [] {
      var next := AppendId(index, tds[0], id);
      IndexAllEntry(next, tds[1..], id, td);
      assert td in tds <==> td == tds[0] || td in tds[1..] by {
        assert tds == [tds[0]] + tds[1..];
      }
      if tds[0] == td {
        assert Repeat(id, Count(tds, td)) == [id] + Repeat(id, Count(tds[1..], td));
      }
    }
  }

  /** Indexing the next message id keeps every id in range of the grown store. */
  lemma {:induction false} IndexAllBounded(index: map<string, seq<nat>>, tds: seq<string>, size: nat)
    requires IndexBounded(index, size)
    ensures IndexBounded(IndexAll(index, tds, size), size + 1)
  {
    forall td, i | td in IndexAll(index, tds, size) && 0 <= i < |IndexAll(index, tds, size)[td]|
      ensures IndexAll(index, tds, size)[td][i] < size + 1
    {
      IndexAllEntry(index, tds, size, td);
      var old_ids := IdsOf(index, td);
      if i >= |old_ids| {
        assert IndexAll(index, tds, size)[td][i] == Repeat(size, Count(tds, td))[i - |old_ids|];
      } else {
        assert old_ids[i] < size;
      }
    }
  }

  /** SEARCH: the stored messages under a trapdoor, in the order their ids were indexed. */
  function Lookup(store: seq<StoredMessage>, index: map<string, seq<nat>>, td: string): (r: seq<StoredMessage>)
    requires IndexBounded(index, |store|)
  {
    var ids := IdsOf(index, td);
    seq(|ids|, i requires 0 <= i < |ids| => store[ids[i]])
  }

  /**
   * What SEARCH sees after SEND_MSG: the earlier results for `td`, then the new message once per
   * occurrence of `td` among its trapdoors. An unknown trapdoor yields nothing.
   */
  lemma LookupAfterSend(store: seq<StoredMessage>, index: map<string, seq<nat>>, m: StoredMessage, tds: seq<string>, td: string)
    requires IndexBounded(index, |store|)
    ensures IndexBounded(IndexAll(index, tds, |store|), |store| + 1)
    ensures Lookup(store + [m], IndexAll(index, tds, |store|), td) == Lookup(store, index, td) + Repeat(m, Count(tds, td))
  {
    IndexAllBounded(index, tds, |store|);
    IndexAllEntry(index, tds, |store|, td);
  }

  lemma LookupUnknown(store: seq<StoredMessage>, index: map<string, seq<nat>>, td: string)
    requires IndexBounded(index, |store|) && td !in index
    ensures Lookup(store, index, td) == []
  {
  }

  // ---------------------------------------------------------------------------------------
  // Aggregation
  // ---------------------------------------------------------------------------------------

  /** The accumulator loop shared by PIR_QUERY and GET_AVG_SALARY. */
  method FoldAdd(pub: Paillier.PublicKey, cs: seq<nat>) returns (total: nat)
    requires |cs| >= 1 && pub.n >= 1
    ensures total == Paillier.AddFold(pub, cs[0], cs[1..])
  {
    total := cs[0];
    for i := 1 to |cs|
      invariant Paillier.AddFold(pub, total, cs[i..]) == Paillier.AddFold(pub, cs[0], cs[1..])
    {
      assert cs[i..][1..] == cs[i + 1..];
      total := Paillier.Add(pub, total, cs[i]);
    }
  }

  /** What an aggregation request over `cs` leads to. */
  function AggregateOutcome(cs: seq<nat>, pub: Paillier.PublicKey, isPir: bool): Outcome
  {
    if cs == [] then (if isPir then NoReply else Send(Status("FAIL", "暂无数据")))
    else if |cs| >= 2 && pub.n == 0 then Disconnect
    else if |cs| == 1 then Send(if isPir then PirRes(cs[0]) else SalaryRes(cs[0], 1))
    else
      var total := Paillier.AddFold(pub, cs[0], cs[1..]);
      Send(if isPir then PirRes(total) else SalaryRes(total, |cs|))
  }

  /**
   * The aggregation the PIR and salary requests rely on: over honest encryptions under a valid
   * key pair, the ciphertext the server sends back decrypts to the sum of the plaintexts mod n,
   * and the salary reply counts every entry.
   */
  lemma AggregateDecrypts(pub: Paillier.PublicKey, priv: Paillier.PrivateKey, p: nat, q: nat,
                          cs: seq<nat>, ms: seq<nat>, rs: seq<nat>, isPir: bool)
    requires Paillier.ValidKeys(pub, priv, p, q) && Paillier.HonestEncryptions(pub, p, q, cs, ms, rs)
    requires |cs| >= 1
    ensures AggregateOutcome(cs, pub, isPir).Send?
    ensures isPir ==>
      && AggregateOutcome(cs, pub, isPir).reply.PirRes?
      && Paillier.Decrypt(priv, pub, AggregateOutcome(cs, pub, isPir).reply.result) == Paillier.Sum(ms) % pub.n
    ensures !isPir ==>
      && AggregateOutcome(cs, pub, isPir).reply.SalaryRes?
      && AggregateOutcome(cs, pub, isPir).reply.count == |cs|
      && Paillier.Decrypt(priv, pub, AggregateOutcome(cs, pub, isPir).reply.encSum) == Paillier.Sum(ms) % pub.n
  {
    Paillier.DecryptAddFold(pub, priv, p, q, cs, ms, rs);
    if |cs| == 1 {
      assert cs[1..] == [];
    }
  }

  class ServerState {
    var messageStore: seq<StoredMessage>
    var searchIndex: map<string, seq<nat>>
    var salaryData: seq<nat>

    ghost predicate Valid()
      reads this
    {
      IndexBounded(searchIndex, |messageStore|)
    }

    constructor ()
      ensures messageStore == [] && searchIndex == map[] && salaryData == []
      ensures Valid()
    {
      messageStore, searchIndex, salaryData := [], map[], [];
    }

    /** SEND_MSG's bookkeeping: store the message, then index its id under each trapdoor. */
    method StoreAndIndex(sender: string, target: string, cipher: string, trapdoors: seq<string>) returns (msgId: nat)
      requires Valid()
      modifies this
      ensures Valid()
      ensures msgId == |old(messageStore)|
      ensures messageStore == old(messageStore) + [StoredMessage(sender, target, cipher)]
      ensures searchIndex == IndexAll(old(searchIndex), trapdoors, msgId)
      ensures salaryData == old(salaryData)
    {
      msgId := |messageStore|;
      IndexAllBounded(searchIndex, trapdoors, msgId);
      messageStore := messageStore + [StoredMessage(sender, target, cipher)];
      for k := 0 to |trapdoors|
        invariant messageStore == old(messageStore) + [StoredMessage(sender, target, cipher)]
        invariant salaryData == old(salaryData)
        invariant IndexAll(searchIndex, trapdoors[k..], msgId) == IndexAll(old(searchIndex), trapdoors, msgId)
      {
        assert trapdoors[k..][1..] == trapdoors[k + 1..];
        ghost var before := searchIndex;
        var td := trapdoors[k];
        if td !in searchIndex {
          searchIndex := searchIndex[td := []];
        }
        searchIndex := searchIndex[td := searchIndex[td] + [msgId]];
        assert searchIndex == AppendId(before, td, msgId);
      }
      assert trapdoors[|trapdoors|..] == [];
    }

    method AppendSalary(encSalary: nat)
      modifies this
      ensures salaryData == old(salaryData) + [encSalary]
      ensures messageStore == old(messageStore) && searchIndex == old(searchIndex)
    {
      salaryData := salaryData + [encSalary];
    }

    /** The reply to an aggregation over `cs`: PIR_QUERY's vector or the stored salaries. */
    method Aggregate(cs: seq<nat>, pub: Paillier.PublicKey, isPir: bool) returns (out: Outcome)
      ensures out == AggregateOutcome(cs, pub, isPir)
    {
      if cs == [] {
        out := if isPir then NoReply else Send(Status("FAIL", "暂无数据"));
      } else if |cs| >= 2 && pub.n == 0 {
        out := Disconnect;
      } else if |cs| == 1 {
        out := Send(if isPir then PirRes(cs[0]) else SalaryRes(cs[0], 1));
      } else {
        var total := FoldAdd(pub, cs);
        out := Send(if isPir then PirRes(total) else SalaryRes(total, |cs|));
      }
    }
  }

  /** One client connection: its login gate and the shared server state. */
  class Connection {
    var currentUser: Option<string>
    const server: ServerState

    constructor (server: ServerState)
      ensures this.server == server && currentUser == None
    {
      this.server := server;
      currentUser := None;
    }

    /** One pass of the receive loop of `handle_client`. */
    method Handle(req: Request, db: DatabaseAnswers) returns (out: Outcome)
      requires server.Valid()
      modifies this, server
      ensures server.Valid()
      // The login gate: only a verified LOGIN sets the user, and until then nothing but
      // REGISTER and LOGIN gets through.
      ensures currentUser == (if req.Login? && db.credentialsOk then Some(req.username) else old(currentUser))
      ensures !req.Register? && !req.Login? && !LoggedIn(old(currentUser)) ==>
                out == Send(Status("FAIL", LoginFirst))
      ensures req.Login? ==>
                out == Send(if db.credentialsOk then Status("OK", "登录成功") else Status("FAIL", "用户名或密码错误"))
      ensures req.Register? ==>
                out == Send(if db.registered then Status("OK", "注册成功") else Status("FAIL", "用户已存在"))
      // The message store and index change only on SEND_MSG, salaries only on COMPUTE_SALARY.
      ensures req.SendMsg? && LoggedIn(old(currentUser)) ==>
                && server.messageStore == old(server.messageStore)
                     + [StoredMessage(old(currentUser).value, TargetOf(req.target), req.cipherText)]
                && server.searchIndex == IndexAll(old(server.searchIndex), req.trapdoors, |old(server.messageStore)|)
                && out == Send(MsgAck(TargetOf(req.target), req.cipherText))
      ensures !(req.SendMsg? && LoggedIn(old(currentUser))) ==>
                server.messageStore == old(server.messageStore) && server.searchIndex == old(server.searchIndex)
      ensures server.salaryData ==
                if req.ComputeSalary? && LoggedIn(old(currentUser)) then old(server.salaryData) + [req.encSalary]
                else old(server.salaryData)
      ensures LoggedIn(old(currentUser)) ==>
                && (req.GetFriends? ==> out == Send(FriendList(db.friends)))
                && (req.AddFriend? ==> out == Send(Status("OK", if db.friendAdded then "添加成功" else "用户不存在")))
                && (req.Search? ==> out == Send(SearchRes(Lookup(server.messageStore, server.searchIndex, req.trapdoor))))
                && (req.PirQuery? ==> out == AggregateOutcome(req.queryVector, req.pubKey, true))
                && (req.ComputeSalary? ==> out == Send(Status("OK", "薪资已加密上报")))
                && (req.GetAvgSalary? ==> out == AggregateOutcome(server.salaryData, req.pubKey, false))
                && (req.Unknown? ==> out == NoReply)
    {
      if req.Register? {
        out := Send(if db.registered then Status("OK", "注册成功") else Status("FAIL", "用户已存在"));
      } else if req.Login? {
        if db.credentialsOk {
          currentUser := Some(req.username);
          out := Send(Status("OK", "登录成功"));
        } else {
          out := Send(Status("FAIL", "用户名或密码错误"));
        }
      } else if !LoggedIn(currentUser) {
        out := Send(Status("FAIL", LoginFirst));
      } else {
        match req {
          case GetFriends =>
            out := Send(FriendList(db.friends));
          case AddFriend(_) =>
            out := Send(Status("OK", if db.friendAdded then "添加成功" else "用户不存在"));
          case SendMsg(target, cipher, trapdoors) =>
            var t := TargetOf(target);
            var _ := server.StoreAndIndex(currentUser.value, t, cipher, trapdoors);
            out := Send(MsgAck(t, cipher));
          case Search(td) =>
            out := Send(SearchRes(Lookup(server.messageStore, server.searchIndex, td)));
          case PirQuery(qVec, pub) =>
            out := server.Aggregate(qVec, pub, true);
          case ComputeSalary(c) =>
            server.AppendSalary(c);
            out := Send(Status("OK", "薪资已加密上报"));
          case GetAvgSalary(pub) =>
            out := server.Aggregate(server.salaryData, pub, false);
          case Unknown(_) =>
            out := NoReply;
        }
      }
    }
  }
}
