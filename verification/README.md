# SecureChat in Dafny

SecureChat is a chat system with end-to-end cryptographic extras. It has three parts:

- A socket server with a tkinter desktop client. Logged-in users send AES-encrypted messages.
- A Flask/SocketIO web front end backed by SQLite.
- A set of cryptographic demonstrations that run on both.

The demonstrations are:

- A simplified Paillier cryptosystem (g = n + 1, lambda = (p-1)(q-1)). Its additive homomorphism serves two purposes:
  - A private-information-retrieval (PIR) membership query. The client sends one encrypted bit per user of a fixed roster, the server multiplies the ciphertexts, and the client decrypts the result.
  - An encrypted salary sum.
- Searchable symmetric encryption (SSE). Messages carry keyword trapdoors that the server indexes.
- LSB steganography. Text is hidden in the lowest bit of the red channel of an RGBA image.

This project models the core of the system and proves properties of the model:

- **number_theory.dfy** (`NumberTheory`): the arithmetic the rest needs.
  - Powers, divisibility, gcd and Bezout coefficients, primes and Euclid's lemma.
  - The modular inverse that `Crypto.Util.number.inverse` computes.
- **fermat.dfy** (`Fermat`): the binomial theorem, Fermat's little theorem and its lift to p², and the Carmichael-type fact s^(n·lambda) = 1 (mod n²) that Paillier decryption rests on.
- **paillier.dfy** (`Paillier`): `SimplePaillier`. The key generation updates the object's fields. Encryption, decryption and ciphertext addition are pure functions.
- **chat_server.dfy** (`ChatServer`): the request dispatch of `handle_client`.
  - The login gate.
  - Message store and trapdoor index.
  - SEARCH.
  - The PIR and salary folds.
- **stego.dfy** (`Stego`): `hide` and `extract` over a pixel list.
- **database.dfy** (`Database`): `DatabaseManager` with its SQLite tables as in-memory sequences and a map.
- **app.dfy** (`App`): the web helpers.
  - The upload filter.
  - Symmetric room names.
  - The `privacy_calc` fold.
  - The per-user key cache.
  - The shaping of history and search results.
- **client_gui.dfy** (`ClientGui`): the desktop client's side of the protocol.
  - Login with load-or-generate of the key pair.
  - The one-hot PIR query and the reading of its answer.
  - The salary submission.

Randomness becomes parameters: the primes of `getPrime`, the draws of `random.randint` and the uuid of an upload. `time.time()` is also a parameter. AES is opaque: encryption is a function of the key entry and the plaintext, and decryption a partial function (`None` where it raises).

Python's `//` and `%` agree with Dafny's Euclidean division wherever the divisor is positive, which is every place the model uses them.

The socket server calls a user-account module that is not part of this model: its password check, registration, friend list and add-friend results are passed to the dispatcher as `DatabaseAnswers`.

## Model

| member | source | states |
|---|---|---|
| NumberTheory.ModInverse | core/paillier.py:18 | an inverse of lmb modulo n exists (`Some`) exactly when gcd(lmb, n) = 1, and then it is one |
| NumberTheory.NoInverseWithoutCoprimality | core/paillier.py:18 | when gcd(a, m) ≠ 1 no x has a·x ≡ 1 (mod m), so the `ValueError` path is the only possible outcome |
| Fermat.PowNLambdaIsOne | core/paillier.py:33 | for n = pq with distinct primes and s coprime to both, s^(n·lambda) ≡ 1 (mod n²): the fact that makes `pow(c, lmb, n_sq)` strip the blinding |
| Paillier.SimplePaillier.constructor | core/paillier.py:5-9 | every key attribute starts unset |
| Paillier.SimplePaillier.GenerateKeys | core/paillier.py:11-19 | sets n = pq, n_sq = n², g = n+1, lmb = (p-1)(q-1); returns a key pair exactly when lmb is invertible mod n, with mu its inverse; on failure mu keeps its old value |
| Paillier.KeyGenerationSucceeds | core/paillier.py:11-18 | two primes of the same bit length ≥ 3 (equal or not) always give gcd(lmb, n) = 1, so `generate_keys` never raises |
| Paillier.LambdaInvertible | core/paillier.py:12-18 | the same for two distinct primes |
| Paillier.SamePrimeLambdaInvertible | core/paillier.py:12-18 | the same when getPrime returns one prime twice |
| Paillier.Encrypt | core/paillier.py:21-26 | a ciphertext is below n² |
| Paillier.Decrypt | core/paillier.py:28-35 | a decryption is below n |
| Paillier.DecryptEncrypt | core/paillier.py:21-35 | decrypt(encrypt(m, r)) = m for every m < n and every draw r in [1, n-1] coprime to p and q |
| Paillier.Add | core/paillier.py:37-41 | a sum ciphertext is below n² |
| Paillier.AddCommutative | core/paillier.py:37-41 | add(c1, c2) = add(c2, c1) |
| Paillier.AddAssociative | core/paillier.py:37-41 | add is associative |
| Paillier.AddIgnoresGenerator | core/paillier.py:38-41 | add reads only n of the public key |
| Paillier.DecryptAdd | core/paillier.py:21-41 | adding two honest ciphertexts adds the plaintexts modulo n |
| Paillier.DecryptAddFold | core/paillier.py:21-41 | the left fold of add over honest ciphertexts decrypts to the sum of all plaintexts modulo n |
| ChatServer.IndexAllEntry | server/chat_server.py:81-83 | after the trapdoor loop a trapdoor has a list exactly when it had one or was sent, and its list is the old one plus the new id once per occurrence |
| ChatServer.IndexAllBounded | server/chat_server.py:78-83 | every indexed id still names a stored message after SEND_MSG |
| ChatServer.LookupAfterSend | server/chat_server.py:75-101 | after SEND_MSG, SEARCH on a trapdoor returns the previous results plus the new message once per occurrence of that trapdoor |
| ChatServer.LookupUnknown | server/chat_server.py:97-101 | SEARCH on a trapdoor never indexed returns an empty list |
| ChatServer.FoldAdd | server/chat_server.py:106-109 | the accumulator loop equals the left fold of add seeded with the first ciphertext |
| ChatServer.AggregateDecrypts | server/chat_server.py:103-124 | on honest ciphertexts the PIR_RES result and the SALARY_RES sum decrypt to the plaintext sum mod n, and the salary count is the number of entries |
| ChatServer.ServerState.constructor | server/chat_server.py:25-28 | store, index and salary list start empty |
| ChatServer.ServerState.StoreAndIndex | server/chat_server.py:76-83 | appends the message with id = old length, runs the trapdoor loop, keeps every id in range |
| ChatServer.ServerState.AppendSalary | server/chat_server.py:112-113 | appends the ciphertext and changes nothing else |
| ChatServer.ServerState.Aggregate | server/chat_server.py:103-124 | empty PIR vector: no reply; empty salary list: FAIL "暂无数据"; one entry: itself; otherwise the fold (n = 0 ends the connection) |
| ChatServer.Connection.constructor | server/chat_server.py:30-32 | a connection starts logged out |
| ChatServer.Connection.Handle | server/chat_server.py:42-124 | the login gate; current_user changes only on a verified LOGIN; the reply of every action; store and index change only on SEND_MSG, salaries only on COMPUTE_SALARY |
| Stego.Format08b | core/stego.py:15 | `format(x, '08b')` has at least 8 bits, exactly 8 below 256, and its value is x |
| Stego.SetLowBit | core/stego.py:24 | `r & ~1` or-ed with the bit has that low bit and keeps the other bits |
| Stego.Embed | core/stego.py:17-28 | pixel i gets payload bit i in the red low bit while bits last; every other channel and pixel is unchanged |
| Stego.Hide | core/stego.py:8-35 | an unreadable image saves nothing; otherwise the saved pixels are Embed of the image and the text bits followed by the end marker |
| Stego.ChunkChar | core/stego.py:53 | `chr(int(byte, 2))` has the chunk's binary value as code point |
| Stego.Extract | core/stego.py:37-57 | an unreadable image yields "提取失败"; otherwise the loops compute ExtractText |
| Stego.ExtractHidden | core/stego.py:8-57 | extract(hide(t)) = t for 1 to 1001 characters with codes below 254 when the image has at least 8·len(t)+8 pixels |
| Stego.ExtractHiddenEmpty | core/stego.py:49-53 | hiding the empty text extracts chr(255), because the first marker byte is only skipped once something was decoded |
| Stego.ExtractTextLength | core/stego.py:48-56 | extract's text has between 1 and 1001 characters |
| Stego.MarkerValues | core/stego.py:6 | the two marker bytes are 255 and 254 |
| Stego.DecodeFromLength | core/stego.py:48-54 | the decoding loop stops at 1001 characters |
| Database.SortBy | database.py:57 | ORDER BY timestamp returns a sorted permutation of its input |
| Database.DatabaseManager.constructor | database.py:16-39 | all tables start empty and valid |
| Database.DatabaseManager.AddSearchIndex | database.py:42-48 | `None` or [] inserts nothing; otherwise one index row per trapdoor, in order; other tables unchanged |
| Database.DatabaseManager.SearchEncrypted | database.py:50-60 | the result is the JOIN, as a permutation, sorted latest first |
| Database.SearchEncryptedMembers | database.py:50-60 | a stored message of the room indexed under the trapdoor is found, and every result is such a message |
| Database.DatabaseManager.StoreMessage | database.py:63-69 | appends the row with the next AUTOINCREMENT id, larger than every earlier id, and returns it |
| Database.DatabaseManager.RoomHistory | database.py:72-75 | ascending by timestamp, min(count, 100) rows of the room |
| Database.HistoryKeepsEarliest | database.py:74 | LIMIT 100 drops only messages no earlier than every kept one |
| Database.RoomRowsMembers | database.py:74 | a view is among the room's rows exactly when a message of that room produces it |
| Database.DatabaseManager.RegisterUser | database.py:78-85 | succeeds exactly for a new name and stores the default nickname, signature and colour |
| Database.DatabaseManager.UserProfile | database.py:87-92 | a profile exactly for an existing user, holding that user's nickname, signature and avatar colour |
| Database.DatabaseManager.UpdateUserProfile | database.py:94-98 | updates an existing user only, always returns True |
| Database.DatabaseManager.UserCredentials | database.py:100-103 | the hash and salt exactly for an existing user |
| Database.DatabaseManager.SendFriendRequest | database.py:105-114 | succeeds exactly when the users differ, are not yet friends and the pair has no request; then a pending request with the next id is appended |
| Database.DatabaseManager.PendingRequests | database.py:116-119 | lists (id, from_user) for exactly the status-0 requests addressed to the user (per element: PendingMembers) |
| Database.PendingMembers | database.py:116-119 | lists exactly the status-0 requests addressed to the user |
| Database.DatabaseManager.HandleRequest | database.py:121-134 | succeeds exactly when the id names a request to the current user; accept adds both friendship rows and status 1, anything else status 2 |
| Database.InsertPairKeepsInvariants | database.py:128-129 | the two INSERT OR IGNOREs keep the friends table free of duplicates and symmetric |
| Database.DatabaseManager.Friends | database.py:136-139 | lists f exactly when the row (user, f) exists (per element: FriendsOfMembers) |
| Database.FriendsOfMembers | database.py:136-139 | get_friends lists f exactly when the row (user, f) exists |
| Database.FriendsMutual | database.py:136-139 | b is among a's friends exactly when a is among b's |
| App.Extension | app.py:34 | `rsplit('.', 1)[1]` contains no dot |
| App.AllowedFileJoin | app.py:33-34 | `base.ext` is allowed exactly when the lowercased ext is on the list |
| App.NoDotRefused | app.py:34 | a name without a dot is refused |
| App.Upload | app.py:107-116 | accepted exactly for a present, allowed name; url, "image"/"file" classification and original name as sent |
| App.StoredNameAllowed | app.py:112-113 | the stored uuid name passes the filter again with the same extension |
| App.RoomNameSymmetric | app.py:94 | both participants compute the same room |
| App.RoomNameOrdered | app.py:172 | the room lists the smaller name first |
| App.RoomNameCollision | app.py:172 | ("a", "b_c") and ("a_b", "c") share the room "a_b_c" |
| App.PrivacyCalc | app.py:73-80 | 1 for no ciphertexts, otherwise the product mod n²; n = 0 with ciphertexts raises |
| App.PrivacyCalcIsServerFold | app.py:77-79 | on ciphertexts below n² the product equals the socket server's add fold |
| App.WithKeys | app.py:27-31 | after init_user_keys the user has an entry and every existing entry is kept |
| App.WebApp.constructor | app.py:24-26 | the key cache starts empty |
| App.WebApp.InitUserKeys | app.py:27-31 | creates an entry only for a new user and returns the user's entry |
| App.WebApp.OnJoin | app.py:169-182 | one entry per history message, in order, decrypted or marked "[Fail]" |
| App.DecryptAll | app.py:98-103 | the loop keeps exactly the results that decrypt, in order |
| App.KeepDecryptedSubsequence | app.py:98-103 | the shown results are an order-preserving subsequence, each decrypts to its shown content, and every result that decrypts is shown |
| App.WebApp.SearchSse | app.py:90-104 | no session: empty; otherwise the room's search results that decrypt |
| App.WebApp.OnSend | app.py:184-200 | stores the encrypted message with the next id; indexes only when msg_type is explicitly "text" and indexes are non-empty; the message counter ends at the new id and the users, friends and friend-request tables are unchanged |
| ClientGui.OneHotEntries | client/client_gui.py:254 | entry i of the query plaintexts is a bit, 1 exactly when label i is the queried name |
| ClientGui.OneHotAtMostOne | client/client_gui.py:254 | over distinct labels at most one entry is 1 |
| ClientGui.OneHotSum | client/client_gui.py:254 | over distinct labels the entries sum to 1 for a label and 0 for any other name |
| ClientGui.QueryVector | client/client_gui.py:254 | one ciphertext per roster label |
| ClientGui.PirMembership | client/client_gui.py:214-217 | the server's fold of the query decrypts to 1 for a roster name and 0 otherwise, so presence is reported exactly for roster names |
| ClientGui.ClientLearnsMembership | client/client_gui.py:214-217 | the client's verdict on the server's reply to its own query is `t in roster` |
| ClientGui.SecureChatClient.constructor | client/client_gui.py:30-34 | no user, no keys, not connected |
| ClientGui.SecureChatClient.DoLogin | client/client_gui.py:103-132 | no socket or empty input: nothing sent; a refused or dropped login gives up the connection (is_connected becomes False); an accepted one records the user, loads or generates and saves a key pair (always present afterwards) and asks for friends; the Paillier object's attributes are set only when a key pair is generated, and stay as they were on every other path |
| ClientGui.SecureChatClient.PirUi | client/client_gui.py:251-255 | sends PIR_QUERY with the one-hot vector and key exactly when a name was entered and encryption can run |
| ClientGui.SecureChatClient.PirVerdict | client/client_gui.py:214-217 | a verdict exactly when decryption can run |
| ClientGui.SecureChatClient.SalaryUi | client/client_gui.py:257-260 | a non-zero salary is encrypted and reported, then GET_AVG_SALARY on request |

## Left out

- Sockets, JSON framing, threads and the thread-per-connection sharing of the server's globals. Each request is handled sequentially, with its reply returned.
- The forwarding of NEW_MSG to other online clients (server/chat_server.py:87-95), and the `online_clients` table. It only sends copies and changes no modelled state.
- Flask routing, sessions and templates. The session becomes the user name it holds, if any.
- tkinter widgets, dialogs and message boxes.
- PIL image I/O. An image is a pixel list, or `None` when it cannot be opened.
- The `stego_hide` and `stego_extract` routes (app.py:43-64), and `client_mock_encrypt` and `client_mock_decrypt` (app.py:66-87). These are only I/O wrappers.
- AES and PBKDF2 (core/crypto_utils.py). These are opaque functions. `hash_password` and `verify_password` are represented by their outcomes.
- `getPrime` and its primality testing, `random.randint`, `uuid4` and `time.time()`. All of them are parameters. Timestamps are integers.
- The secure_db key file I/O. Its JSON contents are the map `keyFile`, and a corrupt or missing file is not modelled.
- The user-account module `server.database` and `core.sse_utils.generate_trapdoor`/`extract_keywords` are not part of this model. Trapdoors are opaque strings.
- The float average `total / count` of the SALARY_RES branch (client/client_gui.py:218-221). It is floating point.
- `do_register` (client/client_gui.py:84-101). It only relays the server's REGISTER reply.
- The order of rows with equal timestamps under ORDER BY, and of rows without ORDER BY. Results are specified as permutations, or kept in table order.
- Stego characters with code points of 256 or more (`format(ord(c), '08b')` then gives more than 8 bits). The round trip is proved for codes below 254; codes 254 and 255 collide with the end marker.
- The correctness lemmas assume distinct primes. With p = q, `generate_keys` still succeeds (`SamePrimeLambdaInvertible`), but decryption is not claimed correct.
- Paillier.Encrypt: the plaintext is a natural number. Python's `pow` would also accept a negative m by inverting g.
- Paillier.Decrypt: ciphertexts are natural numbers, as the protocol produces them.
- ClientGui.SecureChatClient.SalaryUi: takes the salary as a natural number. `askinteger` also accepts negative integers, which `encrypt` would turn into a power of the inverse of g; negative plaintexts are not modelled, as for `Paillier.Encrypt`.
- ClientGui.SecureChatClient.SalaryUi: requires a key pair. Without one, the Python callback either raises in `encrypt` or sends a null key, which the request type cannot express.
- Paillier.SimplePaillier.GenerateKeys: does not model a `getPrime` result outside the requested bit length.
- App.Lower: lowercases ASCII letters only. This is exact for the extension list, because every character that Python lowercases into an ASCII letter is itself an ASCII letter, except the Kelvin sign, which gives "k", and no listed extension contains "k".
