/**
 * The helpers of the Flask/SocketIO web front end (app.py): the upload filter and
 * classification, the room name of a conversation, the `privacy_calc` product fold, the
 * per-user key cache, and the shaping of history and search results.
 *
 * AES is opaque: encryption is a function of the key entry and the plaintext, and decryption a
 * partial function (`None` where AESCipher.decrypt raises). The web session is the name it
 * holds, if any; random uuids and `time.time()` are parameters.
 */
module App {
  import opened Wrappers
  import NumberTheory
  import Paillier
  import Database

  // ---------------------------------------------------------------------------------------
  // Upload filter
  // ---------------------------------------------------------------------------------------

  const AllowedExtensions: set<string> := {"png", "jpg", "jpeg", "gif", "txt", "pdf", "doc", "docx", "zip", "rar"}
  const ImageExtensions: set<string> := {"png", "jpg", "jpeg", "gif"}

  /** str.lower() on the ASCII letters. */
  function Lower(s: string): (r: string)
    ensures |r| == |s|
  {
    seq(|s|, i requires 0 <= i < |s| => if 'A' <= s[i] <= 'Z' then (s[i] as int + 32) as char else s[i])
  }

  /** rsplit('.', 1)[1]: the text after the last dot (the whole name if there is none). */
  function Extension(name: string): (ext: string)
    ensures '.' !in ext
    decreases |name|
  {
    if name == [] then []
    else if name[|name| - 1] == '.' then []
    else Extension(name[..|name| - 1]) + [name[|name| - 1]]
  }

  predicate AllowedFile(filename: string)
  {
    '.' in filename && Lower(Extension(filename)) in AllowedExtensions
  }

  /** Whatever precedes the last dot, the extension is what follows it. */
  lemma {:induction false} ExtensionOfJoin(base: string, ext: string)
    requires '.' !in ext
    ensures Extension(base + "." + ext) == ext
    decreases |ext|
  {
    var name := base + "." + ext;
    if ext == [] {
      assert name[|name| - 1] == '.';
    } else {
      assert name[..|name| - 1] == base + "." + ext[..|ext| - 1];
      ExtensionOfJoin(base, ext[..|ext| - 1]);
      assert ext == ext[..|ext| - 1] + [ext[|ext| - 1]];
    }
  }

  /** allowed_file accepts `base.ext` exactly when the lowercased `ext` is on the list. */
  lemma AllowedFileJoin(base: string, ext: string)
    requires '.' !in ext
    ensures AllowedFile(base + "." + ext) <==> Lower(ext) in AllowedExtensions
  {
    ExtensionOfJoin(base, ext);
    assert (base + "." + ext)[|base|] == '.';
  }

  /** A name without a dot is always refused. */
  lemma NoDotRefused(filename: string)
    requires '.' !in filename
    ensures !AllowedFile(filename)
  {
  }

  datatype UploadResult =
    | UploadError
    | UploadOk(url: string, msgType: string, originalName: string)

  /**
   * upload_file with the uploaded file's name (`None`: no file part or an empty name) and the
   * uuid4 text drawn for the stored name. Saving the file is left out.
   */
  function Upload(filename: Option<string>, uuid: string): (r: UploadResult)
    ensures r.UploadOk? <==> filename.Some? && AllowedFile(filename.value)
    ensures r.UploadOk? ==>
      var ext := Lower(Extension(filename.value));
      && ext in AllowedExtensions
      && r.url == "/static/uploads/" + uuid + "." + ext
      && (r.msgType == "image" <==> ext in ImageExtensions)
      && (r.msgType == "image" || r.msgType == "file")
      && r.originalName == filename.value
  {
    if filename.None? || filename.value == [] || !AllowedFile(filename.value) then UploadError
    else
      var ext := Lower(Extension(filename.value));
      UploadOk("/static/uploads/" + uuid + "." + ext, if ext in ImageExtensions then "image" else "file", filename.value)
  }

  /** The stored name of an accepted upload passes the filter again, with the same extension. */
  lemma StoredNameAllowed(filename: string, uuid: string)
    requires AllowedFile(filename)
    ensures AllowedFile(uuid + "." + Lower(Extension(filename)))
    ensures Extension(uuid + "." + Lower(Extension(filename))) == Lower(Extension(filename))
  {
    var ext := Lower(Extension(filename));
    assert '.' !in ext by {
      forall i | 0 <= i < |ext|
        ensures ext[i] != '.'
      {
        assert Extension(filename)[i] != '.';
      }
    }
    ExtensionOfJoin(uuid, ext);
    LowerIdempotent(Extension(filename));
    AllowedFileJoin(uuid, ext);
  }

  lemma LowerIdempotent(s: string)
    ensures Lower(Lower(s)) == Lower(s)
  {
  }

  // ---------------------------------------------------------------------------------------
  // Room names
  // ---------------------------------------------------------------------------------------

  /** Python's `<` on strings: lexicographic by code point, a proper prefix first. */
  predicate Less(a: string, b: string)
    decreases |a|
  {
    b != [] && (a == [] || a[0] < b[0] || (a[0] == b[0] && Less(a[1..], b[1..])))
  }

  /** "_".join(sorted([a, b])): the two-element sort swaps only when b < a. */
  function RoomName(a: string, b: string): string
  {
    if Less(b, a) then b + "_" + a else a + "_" + b
  }

  lemma {:induction false} LessIrreflexive(a: string)
    ensures !Less(a, a)
    decreases |a|
  {
    if a != [] {
      LessIrreflexive(a[1..]);
    }
  }

  lemma {:induction false} LessAsymmetric(a: string, b: string)
    ensures !(Less(a, b) && Less(b, a))
    decreases |a|
  {
    if a != [] && b != [] && a[0] == b[0] {
      LessAsymmetric(a[1..], b[1..]);
    }
  }

  lemma {:induction false} LessTotal(a: string, b: string)
    ensures a == b || Less(a, b) || Less(b, a)
    decreases |a|
  {
    if a != [] && b != [] && a[0] == b[0] {
      LessTotal(a[1..], b[1..]);
      if a[1..] == b[1..] {
        assert a == [a[0]] + a[1..] && b == [b[0]] + b[1..];
      }
    }
  }

  /** Both participants of a conversation compute the same room. */
  lemma RoomNameSymmetric(a: string, b: string)
    ensures RoomName(a, b) == RoomName(b, a)
  {
    LessAsymmetric(a, b);
    LessTotal(a, b);
  }

  /** The room lists the smaller name first. */
  lemma RoomNameOrdered(a: string, b: string)
    ensures RoomName(a, b) == (if Less(a, b) then a + "_" + b else b + "_" + a)
  {
    LessAsymmetric(a, b);
    LessTotal(a, b);
  }

  /** Names may contain "_", so two different pairs of users can land in one room. */
  lemma RoomNameCollision()
    ensures RoomName("a", "b_c") == RoomName("a_b", "c") == "a_b_c"
  {
    assert Less("a", "b_c");
    assert Less("a_b", "c");
    LessAsymmetric("a", "b_c");
    LessAsymmetric("a_b", "c");
  }

  // ---------------------------------------------------------------------------------------
  // privacy_calc
  // ---------------------------------------------------------------------------------------

  function Product(cs: seq<nat>): nat
  {
    if cs == [] then 1 else Product(cs[..|cs| - 1]) * cs[|cs| - 1]
  }

  /**
   * privacy_calc with the key's `n` and the ciphertext list: `None` is the
   * ZeroDivisionError of n == 0 on a non-empty list.
   */
  method PrivacyCalc(n: nat, ciphers: seq<nat>) returns (res: Option<nat>)
    ensures res.None? <==> n == 0 && ciphers != []
    ensures res.Some? ==> res.value == if ciphers == [] then 1 else Product(ciphers) % (n * n)
  {
    var nSq := n * n;
    if n == 0 && ciphers != [] {
      return None;
    }
    var r := 1;
    for i := 0 to |ciphers|
      invariant r == if i == 0 then 1 else Product(ciphers[..i]) % nSq
    {
      assert ciphers[..i + 1][..i] == ciphers[..i];
      if i > 0 {
        NumberTheory.MulModLeft(Product(ciphers[..i]), ciphers[i], nSq);
      }
      r := (r * ciphers[i]) % nSq;
    }
    assert ciphers[..|ciphers|] == ciphers;
    res := Some(r);
  }

  /** The running value of privacy_calc's loop from accumulator `acc`. */
  function ProductFold(acc: nat, cs: seq<nat>, nSq: nat): nat
    requires nSq > 0
    decreases |cs|
  {
    if cs == [] then acc else ProductFold((acc * cs[0]) % nSq, cs[1..], nSq)
  }

  lemma {:induction false} ProductFoldIsAddFold(pub: Paillier.PublicKey, acc: nat, cs: seq<nat>)
    requires pub.n >= 1
    ensures ProductFold(acc, cs, pub.n * pub.n) == Paillier.AddFold(pub, acc, cs)
    decreases |cs|
  {
    if cs != [] {
      ProductFoldIsAddFold(pub, Paillier.Add(pub, acc, cs[0]), cs[1..]);
    }
  }

  lemma {:induction false} ProductFoldIsProduct(pre: seq<nat>, cs: seq<nat>, nSq: nat)
    requires nSq > 0 && pre != []
    ensures ProductFold(Product(pre) % nSq, cs, nSq) == Product(pre + cs) % nSq
    decreases |cs|
  {
    if cs == [] {
      assert pre + cs == pre;
    } else {
      var pre' := pre + [cs[0]];
      assert pre'[..|pre'| - 1] == pre;
      NumberTheory.MulModLeft(Product(pre), cs[0], nSq);
      ProductFoldIsProduct(pre', cs[1..], nSq);
      assert pre' + cs[1..] == pre + cs;
    }
  }

  /**
   * On a non-empty list of ciphertexts below n^2, privacy_calc computes the same value as the
   * socket server's aggregation, which starts from the first ciphertext and adds the rest.
   */
  lemma PrivacyCalcIsServerFold(pub: Paillier.PublicKey, cs: seq<nat>)
    requires pub.n >= 1 && cs != []
    requires forall i :: 0 <= i < |cs| ==> cs[i] < pub.n * pub.n
    ensures Product(cs) % (pub.n * pub.n) == Paillier.AddFold(pub, cs[0], cs[1..])
  {
    var nSq := pub.n * pub.n;
    NumberTheory.MulAtLeast(pub.n, pub.n);
    assert [cs[0]][..0] == [];
    NumberTheory.ModUnique(cs[0], nSq, 0, cs[0]);
    assert Product([cs[0]]) % nSq == cs[0];
    ProductFoldIsProduct([cs[0]], cs[1..], nSq);
    assert [cs[0]] + cs[1..] == cs;
    ProductFoldIsAddFold(pub, cs[0], cs[1..]);
  }

  // ---------------------------------------------------------------------------------------
  // The key cache and the result shaping
  // ---------------------------------------------------------------------------------------

  /** user_keys[username]: {'aes': AESCipher(shared_secret)}. */
  datatype KeyEntry = KeyEntry(aesSecret: string)

  /** The user_keys table after init_user_keys(username). */
  function WithKeys(keys: map<string, KeyEntry>, username: string, secret: string): (r: map<string, KeyEntry>)
    ensures username in r && r.Keys == keys.Keys + {username}
    ensures forall u :: u in keys ==> r[u] == keys[u]
  {
    if username in keys then keys else keys[username := KeyEntry(secret)]
  }

  lemma WithKeysIdempotent(keys: map<string, KeyEntry>, username: string, secret: string)
    ensures WithKeys(WithKeys(keys, username, secret), username, secret) == WithKeys(keys, username, secret)
  {
  }

  /** One entry of the `history_messages` list. */
  datatype ShownMessage = ShownMessage(msg: Database.MessageView, content: string, isEncrypted: bool)

  /** on_join's treatment of one history message. */
  function ShowOne(m: Database.MessageView, plain: Option<string>): ShownMessage
  {
    if plain.Some? then ShownMessage(m, plain.value, false) else ShownMessage(m, "[Fail]", true)
  }

  /** search_sse's filter: the results that decrypt, in their order. */
  function KeepDecrypted(results: seq<Database.MessageView>, entry: KeyEntry,
                         decrypt: (KeyEntry, string) -> Option<string>): seq<ShownMessage>
  {
    if results == [] then []
    else
      var last := results[|results| - 1];
      var p := decrypt(entry, last.contentEnc);
      KeepDecrypted(results[..|results| - 1], entry, decrypt) + (if p.Some? then [ShownMessage(last, p.value, false)] else [])
  }

  /** search_sse's loop: try to decrypt each result and keep those that succeed. */
  method DecryptAll(results: seq<Database.MessageView>, keys: KeyEntry,
                    decrypt: (KeyEntry, string) -> Option<string>) returns (shown: seq<ShownMessage>)
    ensures shown == KeepDecrypted(results, keys, decrypt)
  {
    shown := [];
    for i := 0 to |results|
      invariant shown == KeepDecrypted(results[..i], keys, decrypt)
    {
      assert results[..i + 1][..i] == results[..i];
      var p := decrypt(keys, results[i].contentEnc);
      if p.Some? {
        shown := shown + [ShownMessage(results[i], p.value, false)];
      }
    }
    assert results[..|results|] == results;
  }

  function Messages(shown: seq<ShownMessage>): (r: seq<Database.MessageView>)
    ensures |r| == |shown|
  {
    seq(|shown|, i requires 0 <= i < |shown| => shown[i].msg)
  }

  /** `a` is `b` with some elements removed and the order kept. */
  predicate IsSubsequence<T(==)>(a: seq<T>, b: seq<T>)
    decreases |b|
  {
    a == [] || (b != [] &&
      ((a[|a| - 1] == b[|b| - 1] && IsSubsequence(a[..|a| - 1], b[..|b| - 1])) || IsSubsequence(a, b[..|b| - 1])))
  }

  /**
   * search_sse returns an order-preserving subsequence of the database results, marked as
   * decrypted, and drops exactly the results whose decryption fails.
   */
  lemma {:induction false} KeepDecryptedSubsequence(results: seq<Database.MessageView>, entry: KeyEntry,
                                                    decrypt: (KeyEntry, string) -> Option<string>)
    ensures IsSubsequence(Messages(KeepDecrypted(results, entry, decrypt)), results)
    ensures forall s :: s in KeepDecrypted(results, entry, decrypt) ==>
      !s.isEncrypted && decrypt(entry, s.msg.contentEnc) == Some(s.content)
    ensures forall m :: m in results && decrypt(entry, m.contentEnc).Some? ==>
      m in Messages(KeepDecrypted(results, entry, decrypt))
    decreases |results|
  {
    if results != [] {
      var init := results[..|results| - 1];
      var last := results[|results| - 1];
      var rest := KeepDecrypted(init, entry, decrypt);
      KeepDecryptedSubsequence(init, entry, decrypt);
      var p := decrypt(entry, last.contentEnc);
      if p.Some? {
        var shown := rest + [ShownMessage(last, p.value, false)];
        assert Messages(shown)[..|shown| - 1] == Messages(rest);
        assert KeepDecrypted(results, entry, decrypt) == shown;
      } else {
        assert KeepDecrypted(results, entry, decrypt) == rest;
      }
      assert forall m :: m in results ==> m == last || m in init;
      assert forall m :: m in Messages(rest) ==> m in Messages(KeepDecrypted(results, entry, decrypt));
    }
  }

  datatype NewMessage = NewMessage(id: nat, sender: string, content: string, msgType: string,
                                   fileName: Option<string>, isEncrypted: bool, room: string)

  class WebApp {
    var userKeys: map<string, KeyEntry>
    const sharedSecret: string
    const db: Database.DatabaseManager

    constructor (sharedSecret: string, db: Database.DatabaseManager)
      ensures userKeys == map[] && this.sharedSecret == sharedSecret && this.db == db
    {
      userKeys := map[];
      this.sharedSecret := sharedSecret;
      this.db := db;
    }

    /** init_user_keys: create an entry only for a user without one, and return the user's entry. */
    method InitUserKeys(username: string) returns (entry: KeyEntry)
      modifies this
      ensures userKeys == WithKeys(old(userKeys), username, sharedSecret)
      ensures entry == userKeys[username]
      ensures username in old(userKeys) ==> entry == old(userKeys)[username] && userKeys == old(userKeys)
    {
      if username !in userKeys {
        userKeys := userKeys[username := KeyEntry(sharedSecret)];
      }
      entry := userKeys[username];
    }

    /** on_join: the room's history, one entry per message, in order; failures shown as "[Fail]". */
    method OnJoin(me: string, target: string, decrypt: (KeyEntry, string) -> Option<string>)
      returns (room: string, shown: seq<ShownMessage>)
      modifies this
      ensures room == RoomName(me, target)
      ensures userKeys == WithKeys(old(userKeys), me, sharedSecret)
      ensures |shown| == |db.RoomHistory(room)|
      ensures forall i :: 0 <= i < |shown| ==>
        shown[i] == ShowOne(db.RoomHistory(room)[i], decrypt(userKeys[me], db.RoomHistory(room)[i].contentEnc))
    {
      room := RoomName(me, target);
      var keys := InitUserKeys(me);
      var history := db.RoomHistory(room);
      shown := [];
      for i := 0 to |history|
        invariant |shown| == i
        invariant forall j :: 0 <= j < i ==> shown[j] == ShowOne(history[j], decrypt(keys, history[j].contentEnc))
      {
        var p := decrypt(keys, history[i].contentEnc);
        if p.Some? {
          shown := shown + [ShownMessage(history[i], p.value, false)];
        } else {
          shown := shown + [ShownMessage(history[i], "[Fail]", true)];
        }
      }
    }

    /** search_sse: nothing without a session; otherwise the search results that decrypt. */
    method SearchSse(session: Option<string>, trapdoor: string, target: string,
                     decrypt: (KeyEntry, string) -> Option<string>) returns (shown: seq<ShownMessage>)
      modifies this
      ensures session.None? ==> shown == [] && userKeys == old(userKeys)
      ensures session.Some? ==>
        && userKeys == WithKeys(old(userKeys), session.value, sharedSecret)
        && shown == KeepDecrypted(db.SearchEncrypted(trapdoor, RoomName(session.value, target)),
                                  userKeys[session.value], decrypt)
    {
      if session.None? {
        return [];
      }
      var room := RoomName(session.value, target);
      var results := db.SearchEncrypted(trapdoor, room);
      var keys := InitUserKeys(session.value);
      shown := DecryptAll(results, keys, decrypt);
    }

    /**
     * on_send: store the encrypted message, and index it only when the request names the type
     * 'text' explicitly and carries a non-empty keyword list.
     */
    method OnSend(sender: string, target: string, content: string, msgType: Option<string>,
                  fileName: Option<string>, searchIndexes: Option<seq<string>>, now: int,
                  encrypt: (KeyEntry, string) -> string) returns (sent: NewMessage)
      requires db.Valid()
      modifies this, db
      ensures db.Valid()
      ensures userKeys == WithKeys(old(userKeys), sender, sharedSecret)
      ensures sent.id == old(db.lastMessageId) + 1
      ensures sent.room == RoomName(sender, target)
      ensures sent == NewMessage(sent.id, sender, content, if msgType.Some? then msgType.value else "text",
                                 fileName, false, RoomName(sender, target))
      ensures db.messages == old(db.messages) + [Database.MessageRow(sent.id, sent.room, sender,
                                 encrypt(userKeys[sender], content), sent.msgType, fileName, now)]
      ensures db.searchIndex ==
                if msgType == Some("text") && searchIndexes.Some? && searchIndexes.value != []
                then old(db.searchIndex) + seq(|searchIndexes.value|, i requires 0 <= i < |searchIndexes.value| =>
                                               Database.IndexRow(searchIndexes.value[i], sent.id))
                else old(db.searchIndex)
      ensures db.lastMessageId == sent.id
      ensures db.users == old(db.users) && db.friends == old(db.friends) && db.requests == old(db.requests)
      ensures db.lastRequestId == old(db.lastRequestId)
    {
      var room := RoomName(sender, target);
      var keys := InitUserKeys(sender);
      var enc := encrypt(keys, content);
      var storedType := if msgType.Some? then msgType.value else "text";
      var msgId := db.StoreMessage(room, sender, enc, storedType, fileName, now);
      if msgType == Some("text") && searchIndexes.Some? && searchIndexes.value != [] {
        db.AddSearchIndex(msgId, searchIndexes);
      }
      sent := NewMessage(msgId, sender, content, storedType, fileName, false, room);
    }
  }
}
