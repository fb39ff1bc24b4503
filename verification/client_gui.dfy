/**
 * The querier side of the membership protocol in the desktop client (client/client_gui.py):
 * logging in and getting hold of a Paillier key pair, building the one-hot PIR query over the
 * fixed user roster, reading the server's answer, and submitting a salary.
 *
 * The socket is replaced by the requests each action sends and the reply status it reads; the
 * key file of client/secure_db.py is the map `keyFile`. The primes drawn by `getPrime` and the
 * blinding draws of `random.randint` are parameters.
 */
module ClientGui {
  import opened Wrappers
  import opened NumberTheory
  import Paillier
  import ChatServer

  /** The PIR domain: the labels of the query vector, in order. */
  const Roster: seq<string> := ["Alice", "Bob", "Charlie", "David"]

  /** The key length `do_login` asks for when it has to generate keys. */
  const LoginKeyBits: nat := 128

  predicate Distinct(labels: seq<string>)
  {
    forall i, j :: 0 <= i < j < |labels| ==> labels[i] != labels[j]
  }

  /** The plaintexts of the query: 1 at the queried name's label, 0 everywhere else. */
  function OneHot(labels: seq<string>, t: string): (ms: seq<nat>)
    ensures |ms| == |labels|
  {
    seq(|labels|, i requires 0 <= i < |labels| => if labels[i] == t then 1 else 0)
  }

  /** Every entry of the query is a bit, and it is 1 exactly at the labels equal to `t`. */
  lemma OneHotEntries(labels: seq<string>, t: string)
    ensures forall i :: 0 <= i < |labels| ==>
      OneHot(labels, t)[i] <= 1 && (OneHot(labels, t)[i] == 1 <==> labels[i] == t)
  {
  }

  /** Over distinct labels the query holds at most one 1. */
  lemma OneHotAtMostOne(labels: seq<string>, t: string)
    requires Distinct(labels)
    ensures forall i, j :: 0 <= i < |labels| && 0 <= j < |labels| && OneHot(labels, t)[i] == 1 && OneHot(labels, t)[j] == 1 ==> i == j
  {
  }

  /** Over distinct labels the plaintexts add up to 1 when `t` is one of them and to 0 otherwise. */
  lemma {:induction false} OneHotSum(labels: seq<string>, t: string)
    requires Distinct(labels)
    ensures Paillier.Sum(OneHot(labels, t)) == if t in labels then 1 else 0
    decreases |labels|
  {
    if labels != [] {
      var rest := labels[1..];
      assert Distinct(rest) by {
        forall i, j | 0 <= i < j < |rest|
          ensures rest[i] != rest[j]
        {
          assert rest[i] == labels[i + 1] && rest[j] == labels[j + 1];
        }
      }
      OneHotSum(rest, t);
      assert OneHot(labels, t)[1..] == OneHot(rest, t);
      assert forall x :: x in labels <==> x == labels[0] || x in rest;
      if labels[0] == t {
        assert t !in rest by {
          forall k | 0 <= k < |rest|
            ensures rest[k] != t
          {
            assert rest[k] == labels[k + 1];
          }
        }
      }
    }
  }

  lemma RosterDistinct()
    ensures Distinct(Roster)
  {
    assert Roster[0] != Roster[1] && Roster[0] != Roster[2] && Roster[0] != Roster[3];
    assert Roster[1] != Roster[2] && Roster[1] != Roster[3] && Roster[2] != Roster[3];
  }

  /** Blinding draws, one per label, that `encrypt` can take under `pub`. */
  predicate DrawsInRange(pub: Paillier.PublicKey, rs: seq<nat>)
  {
    |rs| == |Roster| && forall i :: 0 <= i < |rs| ==> 1 <= rs[i] <= pub.n - 1
  }

  /** The query vector of `pir_ui`: label i's plaintext encrypted with draw `rs[i]`. */
  function QueryVector(pub: Paillier.PublicKey, t: string, rs: seq<nat>): (cs: seq<nat>)
    requires pub.n >= 2 && DrawsInRange(pub, rs)
    ensures |cs| == |Roster|
  {
    var ms := OneHot(Roster, t);
    seq(|Roster|, i requires 0 <= i < |Roster| => Paillier.Encrypt(pub, ms[i], rs[i]))
  }

  /** The PIR_RES branch of `recv_loop`: the user is reported present when the decryption is at least 1. */
  predicate PirPresent(val: nat)
  {
    val >= 1
  }

  /**
   * The membership protocol end to end: the server's fold of the client's query decrypts to 1
   * when the queried name is on the roster and to 0 otherwise, so the client reports presence
   * exactly for roster names.
   */
  lemma PirMembership(pub: Paillier.PublicKey, priv: Paillier.PrivateKey, p: nat, q: nat, t: string, rs: seq<nat>)
    requires Paillier.ValidKeys(pub, priv, p, q) && DrawsInRange(pub, rs)
    requires forall i :: 0 <= i < |rs| ==> Paillier.Blinding(rs[i], p, q)
    ensures ChatServer.AggregateOutcome(QueryVector(pub, t, rs), pub, true).Send?
    ensures ChatServer.AggregateOutcome(QueryVector(pub, t, rs), pub, true).reply.PirRes?
    ensures Paillier.Decrypt(priv, pub, ChatServer.AggregateOutcome(QueryVector(pub, t, rs), pub, true).reply.result)
            == if t in Roster then 1 else 0
    ensures PirPresent(Paillier.Decrypt(priv, pub, ChatServer.AggregateOutcome(QueryVector(pub, t, rs), pub, true).reply.result))
            <==> t in Roster
  {
    var cs := QueryVector(pub, t, rs);
    var ms := OneHot(Roster, t);
    assert Paillier.HonestEncryptions(pub, p, q, cs, ms, rs);
    ChatServer.AggregateDecrypts(pub, priv, p, q, cs, ms, rs, true);
    RosterDistinct();
    OneHotSum(Roster, t);
    ModUnique(Paillier.Sum(ms), pub.n, 0, Paillier.Sum(ms));
  }

  /** The desktop client's session: who is logged in, the key pair, and the key file. */
  class SecureChatClient {
    var username: Option<string>
    var pubK: Option<Paillier.PublicKey>
    var privK: Option<Paillier.PrivateKey>
    var isConnected: bool
    /** client_keys.json: user name -> stored key pair. */
    var keyFile: map<string, (Paillier.PublicKey, Paillier.PrivateKey)>
    const paillier: Paillier.SimplePaillier

    constructor (storedKeys: map<string, (Paillier.PublicKey, Paillier.PrivateKey)>)
      ensures username == None && pubK == None && privK == None && !isConnected
      ensures keyFile == storedKeys && fresh(paillier)
    {
      username, pubK, privK, isConnected := None, None, None, false;
      keyFile := storedKeys;
      paillier := new Paillier.SimplePaillier();
    }

    /**
     * do_login. `connectOk` is whether opening the socket succeeds when none is open, `status`
     * the reply's status (`None`: the server closed the connection), `p` and `q` the primes
     * `getPrime(64)` would return. The result is what goes out on the socket.
     */
    method DoLogin(u: string, pw: string, connectOk: bool, status: Option<string>, p: nat, q: nat)
      returns (sent: seq<ChatServer.Request>)
      requires IsPrime(p) && Paillier.HasBitLength(p, LoginKeyBits / 2)
      requires IsPrime(q) && Paillier.HasBitLength(q, LoginKeyBits / 2)
      modifies this, paillier
      // No socket: nothing happens.
      ensures !old(isConnected) && !connectOk ==>
        sent == [] && !isConnected && username == old(username) && pubK == old(pubK) && privK == old(privK)
        && keyFile == old(keyFile)
      // Empty user name or password: a warning, nothing sent.
      ensures (old(isConnected) || connectOk) && (u == [] || pw == []) ==>
        sent == [] && isConnected && username == old(username) && pubK == old(pubK) && privK == old(privK)
        && keyFile == old(keyFile)
      // Connection closed or login refused: the socket is given up, nothing else changes.
      ensures (old(isConnected) || connectOk) && u != [] && pw != [] && status != Some("OK") ==>
        sent == [ChatServer.Login(u, pw)] && !isConnected
        && username == old(username) && pubK == old(pubK) && privK == old(privK) && keyFile == old(keyFile)
      // Login accepted: the client always ends up holding a key pair.
      ensures (old(isConnected) || connectOk) && u != [] && pw != [] && status == Some("OK") ==>
        && sent == [ChatServer.Login(u, pw), ChatServer.GetFriends]
        && isConnected && username == Some(u) && pubK.Some? && privK.Some?
        && keyFile == old(keyFile)[u := (pubK.value, privK.value)]
        && (u in old(keyFile) ==> (pubK.value, privK.value) == old(keyFile)[u])
        && (u !in old(keyFile) ==>
              && Paillier.KeysFrom(pubK.value, privK.value, p, q)
              && paillier.n == Some(p * q) && paillier.nSq == Some((p * q) * (p * q))
              && paillier.g == Some(p * q + 1) && paillier.lmb == Some((p - 1) * (q - 1))
              && paillier.mu == Some(privK.value.mu))
      // Keys are generated, and the Paillier object's attributes assigned, only for an accepted
      // login whose user has no stored key pair.
      ensures !((old(isConnected) || connectOk) && u != [] && pw != [] && status == Some("OK") && u !in old(keyFile)) ==>
        unchanged(paillier)
    {
      if !isConnected {
        if !connectOk {
          return [];
        }
        isConnected := true;
      }
      if u == [] || pw == [] {
        return [];
      }
      sent := [ChatServer.Login(u, pw)];
      if status.None? {
        isConnected := false;
        return;
      }
      if status.value != "OK" {
        isConnected := false;
        return;
      }
      username := Some(u);
      if u in keyFile {
        pubK, privK := Some(keyFile[u].0), Some(keyFile[u].1);
      } else {
        Paillier.KeyGenerationSucceeds(p, q, LoginKeyBits / 2);
        var keys := paillier.GenerateKeys(LoginKeyBits, p, q);
        pubK, privK := Some(keys.value.0), Some(keys.value.1);
        keyFile := keyFile[u := keys.value];
      }
      sent := sent + [ChatServer.GetFriends];
    }

    /**
     * pir_ui: on a non-empty name, send the query vector with the public key. Nothing goes out
     * when the dialog is cancelled or left empty, or when `encrypt` raises because there is no
     * key or `randint(1, n - 1)` has an empty range.
     */
    method PirUi(t: Option<string>, rs: seq<nat>) returns (sent: Option<ChatServer.Request>)
      requires t.Some? && t.value != [] && pubK.Some? && pubK.value.n >= 2 ==> DrawsInRange(pubK.value, rs)
      ensures sent.Some? <==> t.Some? && t.value != [] && pubK.Some? && pubK.value.n >= 2
      ensures sent.Some? ==> sent.value == ChatServer.PirQuery(QueryVector(pubK.value, t.value, rs), pubK.value)
    {
      if t.None? || t.value == [] || pubK.None? || pubK.value.n < 2 {
        return None;
      }
      var vec := QueryVector(pubK.value, t.value, rs);
      return Some(ChatServer.PirQuery(vec, pubK.value));
    }

    /**
     * The PIR_RES branch of recv_loop: `Some(present)`, or `None` where `decrypt` raises (no key
     * pair, or n == 0) and the receive loop ends.
     */
    function PirVerdict(result: nat): (verdict: Option<bool>)
      reads this
      ensures verdict.Some? <==> pubK.Some? && privK.Some? && pubK.value.n >= 1
    {
      if pubK.None? || privK.None? || pubK.value.n == 0 then None
      else Some(PirPresent(Paillier.Decrypt(privK.value, pubK.value, result)))
    }

    /**
     * salary_ui: a non-zero salary is encrypted and reported; then, if the user agrees, the
     * average is requested. `r` is the blinding draw.
     */
    method SalaryUi(s: Option<nat>, r: nat, askAverage: bool) returns (sent: seq<ChatServer.Request>)
      requires pubK.Some?
      requires s.Some? && s.value != 0 && pubK.value.n >= 2 ==> 1 <= r <= pubK.value.n - 1
      ensures s.Some? && s.value != 0 && pubK.value.n < 2 ==> sent == []
      ensures s.Some? && s.value != 0 && pubK.value.n >= 2 ==>
        sent == [ChatServer.ComputeSalary(Paillier.Encrypt(pubK.value, s.value, r))]
                + (if askAverage then [ChatServer.GetAvgSalary(pubK.value)] else [])
      ensures (s.None? || s.value == 0) ==>
        sent == (if askAverage then [ChatServer.GetAvgSalary(pubK.value)] else [])
    {
      sent := [];
      if s.Some? && s.value != 0 {
        if pubK.value.n < 2 {
          return [];
        }
        sent := [ChatServer.ComputeSalary(Paillier.Encrypt(pubK.value, s.value, r))];
      }
      if askAverage {
        sent := sent + [ChatServer.GetAvgSalary(pubK.value)];
      }
    }
  }

  /**
   * What the client shows for its own query: with a key pair from two distinct primes and
   * usable blinding draws, the verdict on the server's reply is the truth about roster membership.
   */
  lemma ClientLearnsMembership(c: SecureChatClient, p: nat, q: nat, t: string, rs: seq<nat>)
    requires c.pubK.Some? && c.privK.Some? && Paillier.ValidKeys(c.pubK.value, c.privK.value, p, q)
    requires DrawsInRange(c.pubK.value, rs) && forall i :: 0 <= i < |rs| ==> Paillier.Blinding(rs[i], p, q)
    ensures c.PirVerdict(ChatServer.AggregateOutcome(QueryVector(c.pubK.value, t, rs), c.pubK.value, true).reply.result)
            == Some(t in Roster)
  {
    PirMembership(c.pubK.value, c.privK.value, p, q, t, rs);
  }
}
