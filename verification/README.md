# SecureComm message pipeline: a Dafny model

A model of the message pipeline of `libsecurecomm` and proofs about it: the ratchet session, the dispatcher with its
byte formats, the in-memory transport, the group manager and the offline queue, each in the form the C++ has (classes
with fields that methods update, loops over buffers and maps, an offset that advances), and proved against value-level
specifications about which the theorems over whole runs are stated.

| file | content |
|---|---|
| `Bytes.dfy`, `Crypto.dfy` | byte strings, widths, big-endian encodings; the primitives as an interface |
| `Envelope.dfy`, `Codec.dfy` | the envelope, its two formats and their parsers |
| `Hkdf.dfy` | `hkdf_extract` and `hkdf_expand` against RFC 5869 |
| `Ratchet.dfy`, `Delivery.dfy`, `Kept.dfy` | the ratchet; one direction of a session over a bad network; receivers that keep keys from before |
| `Sessions.dfy`, `Foreign.dfy` | two ratchets from `initialize` on, with and without session ids; envelopes that carry a key other than the peer's |
| `Roots.dfy`, `Migration.dfy` | what a Diffie-Hellman step derives and when roots agree; export and import of a state, steps on both sides |
| `Dispatcher.dfy`, `Routing.dfy`, `Network.dfy` | the dispatcher; its sessions side by side; two dispatchers end to end |
| `Transport.dfy`, `Fifo.dfy` | the transport as interleaved steps; threads, mutexes, queues, workers and ratchets together |
| `Mls.dfy`, `GroupRuns.dfy`, `GroupKeys.dfy` | the group manager; runs of membership changes; what group keys depend on |
| `Offline.dfy`, `MessageIds.dfy`, `Batches.dfy`, `Retry.dfy` | the queued-message table; the ids it is keyed by; handing a batch to the dispatcher; the retry passes |
| `Witness.dfy` | a concrete instance of the primitives |

## Primitives and hypotheses

HMAC-SHA256, BLAKE2b (`crypto_generichash`), ChaCha20-Poly1305 and X25519 are functions over byte strings
(`Crypto.Primitives`). `Sound` states what holds of them: output sizes, decryption undoes encryption, Diffie-Hellman
agreement. It does not make any hash injective. What authenticated encryption gives is a hypothesis of the theorems that
need it, and always about the nonces, plaintexts and headers that the run at hand seals:

- a later message key of the chain does not open an earlier message (`Delivery.KeysSeparate`);
- a key left over from an earlier session does not open the message of its number (`Delivery.StaleShut`);
- the keys of a chain that a Diffie-Hellman step leads to do not open what was sealed under another
  (`Delivery.ChainShut`);
- the keyed hashes of two states of a group whose epoch secrets or epoch strings differ do not open each other's
  message (`GroupKeys.EpochsSeparate`).

`Witness.HypothesesHoldTogether` shows that they can hold together. Where the point is that a derived value depends on
all of its inputs, the theorem assumes that the hash does not collide on the inputs it names: the secrets of two
histories of steps (`Roots.NoCollision`), the two inputs of a session id (`Dispatch.SessionIdsAgreeIff`), the leaves of
two groups (`GroupKeys.NoCollision`). Randomness and clock readings are parameters.

## Where the code and its documentation differ

The model follows the code.

- README.md line 585 promises that each message key is unique. Two sends use the same key if and only if they use the
  same number of the same chain (`Sessions.SameKeyIff`), and no key is used twice if and only if no two runs of sends do
  (`Sessions.KeysUniqueIff`). Runs that do: both sides of a session, since `initialize` starts both chains at the root;
  one side before and after it is initialized again with that root; two ratchets that imported one state. One
  consequence: with its sender field rewritten, a side's own packet can pass for one of its peer's
  (`Network.ForgedSenderOpensIff` says exactly when).
- `initialize` keeps the skipped keys, so a session that is created again with its root can take a message twice.
  `Kept.EveryArrival` says exactly what every run takes, `Kept.ExactlyOnceIff` when that is once at most, and
  `Network.RecreatedSession` what that means for create_session_with: no message may have been outstanding.
- `tests/ratchet_two_party_test.cpp` lines 20-31 and 40-45 and `tests/ratchet_unit_test.cpp` lines 16-31 expect messages
  to decrypt after each side has stepped on the other's key. `hkdf_root_chain` gives both sides the same send chain and
  the same receive chain; they do not swap roles. What one side sends then arrives at the other if and only if the root
  derives the same chain under both labels, and if not, nothing arrives at all (`Migration.RawArrivesAfterRoundsIff` for
  the byte-string calls of the one test, `Migration.ArrivesAfterRoundsIff` for the envelopes and default ids of the
  other). `Witness.RoundLosesMessages` is a concrete instance.
- enhanced_dispatcher.cpp line 99 calls the message id unique. It is for one sender exactly as far as recipient and
  millisecond are, and not at all where an id contains a NUL (`MessageIds.IdsAgreeIff`); a repeated id costs the earlier
  message (`MessageIds.AllKeptIff`).
- README.md line 651 promises retries with backoff. A failed message leaves the pending rows for good, so the limit of
  ten retries is never reached (`Retry.AttemptedOnce`, `Retry.EnhancedDispatcher.RetryQueuedMessages`). And an
  empty message that cannot be sent is counted as queued, but SQLite refuses its row (`Offline.InsertKeepsInv`).
- dispatcher.cpp line 44 derives the session id from both device ids. Their bytes follow each other without a length, so
  that pairs of ids which split the same text differently share it (`Dispatch.SplitsShareSessionId`,
  `Dispatch.SessionIdsAgreeIff`).
- A message that arrives before `set_on_inbound` is decrypted and dropped, and no later copy of it is reported
  (`Network.LostBeforeCallback`).
- `Dispatcher` offers no way to create a group, so `send_group_message` always throws and `on_raw_message` never takes
  its group branch (`Dispatch.Dispatcher.SendGroupMessage`, `Dispatch.Dispatcher.OnRawMessage`).

## Model

| member | source | states |
|---|---|---|
| Network.EndToEnd | src/libsecurecomm/src/dispatcher.cpp:38-164 | two dispatchers with distinct ids, sessions with each other from one 32-byte root and any sessions with others, over every interleaving of sends both ways with deliveries, copies, losses and reflections of packets, with injected bytes that parse to nothing, name anyone but the peer or are junk, and with whatever either does for others (new sessions, refused ones, sends): of its peer each callback is told exactly what a mailbox without keys or counters tells, which is every message of the peer that was handed over at all, once, unaltered; without other sessions it is told nothing else |
| Network.MailboxDeliversOnce | src/libsecurecomm/src/dispatcher.cpp:112-164 | the mailbox is the exactly-once reference: its notices have distinct indices, carry the text that was sent under that index and the peer's id, and their indices are exactly those of the packets of the peer that some step of the run handed to that side |
| Network.DhStepUnreachable | src/libsecurecomm/src/ratchet.cpp:221-230 | in every reachable state of two such dispatchers the roots of the sessions with each other are still the shared root and the only remote key met there is the peer's, so the branch of decrypt_envelope that steps the root is never taken; no session is ever lost |
| Network.StartRefines | src/libsecurecomm/src/dispatcher.cpp:38-71 | register_device, set_on_inbound and create_session_with on both sides, with other sessions already there, establish the invariant the runs keep |
| Network.RunRefines | src/libsecurecomm/src/dispatcher.cpp:73-164 | every step of every run keeps the correspondence between the two dispatchers with their packets and the mailbox |
| Network.SendRefines | src/libsecurecomm/src/dispatcher.cpp:73-95 | a send by either side keeps that correspondence: the packet is the next numbered message of its direction |
| Network.DeliverRefines | src/libsecurecomm/src/dispatcher.cpp:112-164 | handing any packet to either side keeps it: new ones are accepted, repeated ones and own ones change nothing the callback sees |
| Network.InjectRefines | src/libsecurecomm/src/dispatcher.cpp:112-164 | bytes that the network makes up and that parse to nothing, name anyone but the peer, with or without a session for them, or are junk for the peer's change neither side's correspondence with the mailbox |
| Network.AsideRefines | src/libsecurecomm/src/dispatcher.cpp:38-95 | creating a session with anyone else, accepted or refused, and sending to anyone else keep that correspondence |
| Network.SessionsOpened | src/libsecurecomm/src/dispatcher.cpp:38-164 | over every run the sessions of a side are those it began with and those it created, and whatever its callback is told names one of them |
| Network.ForgedSenderOpensIff | src/libsecurecomm/src/dispatcher.cpp:140-160 | a side's own packet with the peer's id written over its sender field reaches the callback as a message of the peer if and only if no message of that number has been accepted and either no key of the peer has been met yet, or the skipped key of that number is stored and the shared secret with the own key can be computed |
| Network.RewrittenIndexReported | src/libsecurecomm/src/dispatcher.cpp:112-160 | message index, previous counter and timestamp are outside the seal: a packet on which they are rewritten is taken exactly if it is new, and the callback is told the index that is written on it |
| Network.RecreatedSession | src/libsecurecomm/src/dispatcher.cpp:42-69 | creating a session again with the same root restarts the receive chain and keeps the skipped keys; from then on the condition for exactly-once delivery of the first n messages is that all those the chain had passed had been accepted |
| Network.SendsPacket | src/libsecurecomm/src/dispatcher.cpp:73-95 | a send through an initialized session yields the serialization of the next numbered message and does not disturb receiving |
| Network.SentFields | src/libsecurecomm/src/dispatcher.cpp:84-92 | the packet parses to an envelope with the number of the message, the number of messages received as previous counter, and the time of the send |
| Network.AcceptsNewPacket | src/libsecurecomm/src/dispatcher.cpp:112-164 | a packet of the peer reaches the callback exactly when its index is new and a callback is set: the parsed envelope with the plaintext in place of the ciphertext; the receive counter becomes at least the next index |
| Network.LostBeforeCallback | src/libsecurecomm/src/dispatcher.cpp:150-160 | a message that arrives while no callback is set is consumed: after set_on_inbound no copy of it is told |
| Network.IgnoresOwnPacket | src/libsecurecomm/src/dispatcher.cpp:140-149 | a packet reflected to its sender finds no session and changes nothing |
| Routing.SessionsIsolated | src/libsecurecomm/src/dispatcher.cpp:38-164 | over every sequence of session creations, sends and arrivals, the session with one device and all that its operations return are what they would be if no operation on any other session had taken place |
| Routing.OthersStay | src/libsecurecomm/src/dispatcher.cpp:38-164 | an operation leaves every other session, the device id and the callback as they were; an arrival concerns the sender it names |
| Routing.OwnDecides | src/libsecurecomm/src/dispatcher.cpp:38-164 | two dispatchers with the same id and callback that agree on one session agree on what its operations return and make of it, whatever other sessions they have |
| Routing.TakesAsRatchet | src/libsecurecomm/src/dispatcher.cpp:138-160 | over any sequence of packets that name one device, the dispatcher's session goes through the states of the ratchet that decrypts the parsed envelopes, whether each opens or not, and the callback is told exactly the opened ones |
| Routing.RefusedRootLeavesEntry | src/libsecurecomm/src/dispatcher.cpp:42-65 | a root of another length than 32 leaves an existing session as it was and a new entry that cannot send |
| Routing.AcceptedRootStarts | src/libsecurecomm/src/dispatcher.cpp:42-69 | a root of 32 bytes starts both chains at number 0; a new session has the drawn key pair and no skipped keys, an existing one keeps its key pair and its skipped keys |
| Fifo.FirstInFirstOut | src/libsecurecomm/src/dispatcher.cpp:73-95 | any number of threads at both ends over the connected transports, every interleaving of mutexes, queues, workers and callbacks: a receiver never stores a skipped key and what its callback was told is a prefix of what the other side encrypted, in that order, and all of it whenever no send is under way and the queue is empty |
| Fifo.MoveKeeps | src/libsecurecomm/src/in_memory_transport.cpp:72-125 | each step between two lock points keeps mutual exclusion of the dispatcher mutex, agreement of transport lock and thread position, and ratchet index order equal to push order |
| Fifo.EncryptKeeps | src/libsecurecomm/src/dispatcher.cpp:84-90 | the thread that holds the mutex appends exactly the next message of its direction to what is pushed or about to be pushed |
| Fifo.CallbackKeeps | src/libsecurecomm/src/in_memory_transport.cpp:79-87 | the packet the worker hands up is the next one of its direction and is accepted |
| Fifo.NextInHand | src/libsecurecomm/src/in_memory_transport.cpp:79-83 | what the worker has popped is the packet whose index is the number of messages handed up so far |
| Fifo.StageChange | src/libsecurecomm/src/dispatcher.cpp:74 | only the holder of the dispatcher mutex is ever between its lock and its unlock |
| Transport.NothingLostOrReordered | src/libsecurecomm/src/in_memory_transport.cpp:72-125 | in every interleaving: messages handed to the callback, then the one in flight, then the queue, equal the sequence pushed so far |
| Transport.ExitsOnlyWhenEmpty | src/libsecurecomm/src/in_memory_transport.cpp:74-91 | a worker that has been round its loop exits only at a moment when the queue is empty, having handed up everything pushed |
| Transport.EarlyStopLeavesMessages | src/libsecurecomm/src/in_memory_transport.cpp:75-103 | the proviso is needed: a run in which the worker is stopped before its first look at the flag and leaves a message in the queue |
| Transport.WorkerCanFinish | src/libsecurecomm/src/in_memory_transport.cpp:72-91 | in every reachable state in which no thread is inside deliver, a worker that has been round its loop or has not been stopped can by its own steps alone hand up everything that was pushed |
| Transport.StoppedWorkerCanLeave | src/libsecurecomm/src/in_memory_transport.cpp:72-103 | wherever it stands, a worker that has been stopped can by its own steps alone come to its exit, with an empty queue if it has been round its loop, so the join in stop is not blocked by it |
| Transport.StepKeeps | src/libsecurecomm/src/in_memory_transport.cpp:63-125 | every step keeps conservation, the lock discipline and the empty queue at the loop head |
| Transport.StepConserves | src/libsecurecomm/src/in_memory_transport.cpp:79-125 | no single step loses, repeats or reorders a message, whatever the lock state |
| Sessions.RatchetDelivers | src/libsecurecomm/src/ratchet.cpp:145-263 | for fewer than 2^32 encryptions and any sequence of copies and junk, with any session ids that end up the same and any keys kept by the receiver, each of this chain or one that opens nothing here: the exact outcome of every arrival; without kept keys of this chain, the plaintext on the first copy of each message and nothing on later copies, on junk and under the numbers of the other kept keys; without any, skipped keys plus accepted messages equal the receive counter |
| Kept.EveryArrival | src/libsecurecomm/src/ratchet.cpp:204-263 | at a receiver on the session's chain, over every run: a copy is taken if and only if no foreign key sits under its number and it is the first and the key is stored or to come, or it is the second, the key was stored ahead of the chain, and nothing with a higher number came before the first |
| Kept.ExactlyOnceIff | src/libsecurecomm/src/ratchet.cpp:204-263 | whatever arrives, each message is taken at most once, and exactly those that are not closed, if and only if no key of the chain itself is stored at or above the receive counter under a number that is sent |
| Kept.OnceUnlessSecond | src/libsecurecomm/src/ratchet.cpp:232-257 | a single run delivers exactly once if and only if it takes no second copy in the way named above |
| Kept.OpenAfter | src/libsecurecomm/src/ratchet.cpp:232-257 | what the skip loop, the stored keys and the chain make of one number over any run: it can still be taken exactly before its first copy, or between the first and the second if a key was stored ahead of the chain and not overtaken |
| Kept.TwiceIfAhead | src/libsecurecomm/src/ratchet.cpp:238-257 | two copies in a row of a message whose key is stored ahead of the chain are both taken |
| Sessions.OnceAgainIff | src/libsecurecomm/src/ratchet.cpp:145-156 | a receiver is initialized while it keeps keys: whatever then arrives, each message arrives exactly once if and only if no key of the new chain is kept under a number that is sent |
| Sessions.UnnamedReceiverIff | src/libsecurecomm/src/ratchet.cpp:205-209 | a receiver that was given no session id gets its peer's messages if and only if the first envelope to arrive is the peer's |
| Sessions.AdoptsFirst | src/libsecurecomm/src/ratchet.cpp:205-209 | a receiver without an id behaves for ever as one that was given the id of the first envelope |
| Sessions.NamesItself | src/libsecurecomm/src/ratchet.cpp:176-180 | a sender without an id behaves for ever as one that was given the id drawn for its first envelope |
| Sessions.RawDelivers | src/libsecurecomm/src/ratchet.cpp:264-283 | through encrypt and decrypt the same delivery, whatever session ids the two sides were given or not given and whatever such keys the receiver keeps |
| Sessions.RawAsEnvelopes | src/libsecurecomm/src/ratchet.cpp:273-283 | a run of decrypt calls is the run of decrypt_envelope on the strings cut at 36 bytes, under the receiver's own id |
| Sessions.KeysUniqueIff | src/libsecurecomm/src/ratchet.cpp:145-202 | over any list of runs of sends, of either side of any session, after an initialization, an import or at any other point: the message keys are pairwise distinct if and only if no two of the runs use a common number of one chain |
| Sessions.SameKeyIff | src/libsecurecomm/src/ratchet.cpp:174-198 | two sends, of whatever sides and times, use the same key if and only if they use the same number of one chain; both directions of a session start at number 0 of the root's |
| Sessions.KeysDistinct | src/libsecurecomm/src/ratchet.cpp:174-198 | along one chain no message key comes twice |
| Sessions.SealedWithKeysUsed | src/libsecurecomm/src/ratchet.cpp:185-198 | the k-th envelope of a run that starts at number n of a chain is sealed with the k-th derived key, which is key n + k of the chain |
| Sessions.InOrder | src/libsecurecomm/src/ratchet.cpp:174-263 | without any bound: messages that arrive in the order they were sent all open, since both 32-bit counters wrap together and the chains go on |
| Sessions.SentFields | src/libsecurecomm/src/ratchet.cpp:174-202 | the k-th envelope of any run carries number s + k modulo 2^32 both as index and in its header, the own receive counter, the time of the send and no device id |
| Delivery.FirstCopiesOnly | src/libsecurecomm/src/ratchet.cpp:204-263 | the same from any reachable receiver state, in which some messages are already closed; in particular junk of any claimed number costs no later message |
| Delivery.TakeMessage | src/libsecurecomm/src/ratchet.cpp:204-263 | from any state whose stored keys are the session's own or older ones: the message is taken exactly if no older key sits under its number and its key is stored or to come, with the stored numbers and the counter afterwards |
| Delivery.DecryptMessage | src/libsecurecomm/src/ratchet.cpp:204-263 | a message is accepted exactly when it is new and no older key sits under its number; the receive chain, the skipped keys and the counter afterwards are those of the invariant |
| Delivery.TakeJunk | src/libsecurecomm/src/ratchet.cpp:204-263 | junk returns nothing; it makes the chain catch up to the number it claims, storing the keys of exactly the numbers passed, if it carries the peer's key, and changes nothing of that otherwise |
| Delivery.DecryptJunk | src/libsecurecomm/src/ratchet.cpp:204-263 | junk returns nothing and keeps the invariant although the chain may have advanced |
| Foreign.AfterForeignKey | src/libsecurecomm/src/ratchet.cpp:211-263 | after one unauthentic envelope with a foreign key that the source acts on, over every later run of genuine copies: exactly the undelivered messages whose key is stored by then still open, once each, and none does if the shared secret with the peer cannot be computed |
| Foreign.JunkHarmlessIff | src/libsecurecomm/src/ratchet.cpp:211-263 | an undelivered message still opens after an unauthentic envelope if and only if that envelope names no foreign key, or names one that cannot be stepped on, or the key of the message is stored by then and the session can step back to the peer; the session's invariant survives if and only if one of the first two holds |
| Foreign.AtMostOnceWhatever | src/libsecurecomm/src/ratchet.cpp:204-263 | over every mix of genuine copies and envelopes that no key opens, with any foreign keys and any number of root steps onto chains of no use: nothing but copies is taken, each message at most once and with its own text, and none that was accepted before |
| Foreign.ReflectionOpensIff | src/libsecurecomm/src/ratchet.cpp:204-263 | a side's own message that comes back to its session opens if and only if its number has not been accepted and either no key has been met or the key of that number is among the skipped ones and the step to the own key succeeds |
| Foreign.StrandedRun | src/libsecurecomm/src/ratchet.cpp:232-256 | a receiver whose chain has left the sender's takes, over every run, exactly the messages it has a stored key for, on their first copy |
| Foreign.ComesBack | src/libsecurecomm/src/ratchet.cpp:219-230 | a genuine message that finds the session at a foreign key steps the root once more, or is refused and changes nothing |
| Delivery.CatchUpOnChain | src/libsecurecomm/src/ratchet.cpp:232-237 | the skip loop steps the chain to the claimed number and stores the key of every number it passes, unless one is stored there |
| Delivery.CatchUpKeeps | src/libsecurecomm/src/ratchet.cpp:232-237 | the skip loop steps the chain to the claimed number and stores exactly the key of every index it passes |
| Delivery.DecryptFromPeer | src/libsecurecomm/src/ratchet.cpp:204-263 | an envelope that carries the peer's key only catches the chain up and tries one key |
| Delivery.Accounting | src/libsecurecomm/src/ratchet.cpp:232-257 | in every state of a session without older keys, the skipped keys and the accepted messages are together exactly the numbers below the receive counter, and their counts add up to it |
| Delivery.SentAreMessages | src/libsecurecomm/src/ratchet.cpp:174-202 | the k-th encryption is the k-th message of its direction: its header number, key and plaintext |
| Delivery.EncryptMessage | src/libsecurecomm/src/ratchet.cpp:174-202 | one encryption is sealed with the key of its index and moves the chain one step |
| Delivery.ReceiveOne | src/libsecurecomm/src/ratchet.cpp:204-263 | one arrival gives the plaintext exactly if it is a copy of a message not yet accepted |
| Delivery.HeaderReads | src/libsecurecomm/src/ratchet.cpp:181-217 | the number and the public key are read back from the 36-byte header as written |
| Delivery.KeyIsNotChain | src/libsecurecomm/src/ratchet.cpp:185-197 | the message key is the hash of the chain key over "msg" and the next chain key that over "ck" |
| Migration.ImportRestores | src/libsecurecomm/src/ratchet.cpp:284-309 | an exported state, whatever bytes follow it, restores all seven exported fields, forgets the last peer, keeps session id and skipped keys, and exports to the same 168 bytes again; each field has its place in them |
| Migration.ShortStateRefused | src/libsecurecomm/src/ratchet.cpp:297-298 | every strict prefix of an exported state is refused |
| Roots.RootsAgreeIff | src/libsecurecomm/src/ratchet.cpp:94-99 | two sides with the same root that step on whatever keys hold the same new root if and only if their shared secrets hash to the same under the old one |
| Roots.SidesAgreeIff | src/libsecurecomm/src/ratchet.cpp:94-172 | from equal roots, after any number of steps on any keys, the roots are equal if and only if the shared secrets agreed at every step: a side that once stepped on a third key never agrees with the other again, where the hash does not collide |
| Roots.HistoriesAgreeIff | src/libsecurecomm/src/ratchet.cpp:94-99 | roots derived from one root over two histories of secrets of the same length are equal if and only if the histories are |
| Roots.StepDerives | src/libsecurecomm/src/ratchet.cpp:158-172 | a step succeeds exactly on 32-byte keys with which a secret can be computed; the new root is the keyed hash of the secret under the old one, the chains those of the new root over the two labels and one counter byte |
| Roots.MeetDerives | src/libsecurecomm/src/ratchet.cpp:219-230 | a change of the remote key in decrypt_envelope derives the same root and chains but leaves the send counter |
| Roots.OneBlock | src/libsecurecomm/src/ratchet.cpp:62-92 | an output of 32 bytes is one keyed hash of the label followed by the byte 1 |
| Migration.SendsAlike | src/libsecurecomm/src/ratchet.cpp:174-202 | two ratchets that agree on the sending fields produce identical envelopes for ever |
| Migration.MigrationContinues | src/libsecurecomm/src/ratchet.cpp:284-309 | a ratchet with the same session id that imports the state sends the same future envelopes; what it takes of the peer's messages, whatever keys of the chain it keeps itself, is exactly that of a receiver at the exported counter with those keys; with none of its own, once each exactly those at or above the counter under whose numbers no other key is kept, where the original also accepts its undelivered older ones |
| Migration.RoundPairs | src/libsecurecomm/src/ratchet.cpp:158-172 | when each side steps on the other's public key, both succeed or both throw, and then hold the same root, the same two chains and zero counters |
| Migration.RoundsAgree | src/libsecurecomm/src/ratchet.cpp:94-172 | the same after any number of rounds from equal roots |
| Migration.ArrivesAfterRoundsIff | src/libsecurecomm/src/ratchet.cpp:94-172 | after any number of rounds in which both sides step on each other's key, for every run of sends and every sequence of arrivals, with given or default session ids: everything arrives once if the root derives the same chain under the two labels (save under numbers where an older key is kept), and nothing arrives if it does not; something arrives if and only if the chains are the same and some copy has a number without an older key |
| Migration.RawArrivesAfterRoundsIff | src/libsecurecomm/src/ratchet.cpp:264-283 | the same through encrypt and decrypt, whatever session ids the sides have or lack |
| Migration.StartOfChain | src/libsecurecomm/src/ratchet.cpp:204-263 | a receiver at the start of a chain gets everything once if it is the sender's chain and nothing if it is not |
| Witness.RoundLosesMessages | src/libsecurecomm/src/ratchet.cpp:107-111 | a concrete instance: from every root and any two different key pairs, after one round nothing that one side sends ever arrives |
| GroupRuns.RunRealizesRoster | src/libsecurecomm/src/mls_manager.cpp:33-59 | over every run of adds and removes the index is injective and in range, every member holds the leaf it was added with, the leaf count exceeds the member count by the number of repeated adds, and the cached epoch secret is the one derived from the current leaves |
| GroupRuns.EpochCountsChanges | src/libsecurecomm/src/mls_manager.cpp:21-59 | the epoch is 1 advanced once per operation that took effect |
| GroupRuns.EpochAfterIs | src/libsecurecomm/src/mls_manager.cpp:41-57 | below 2^64 operations the 64-bit epoch is plain addition with one wrap |
| GroupRuns.BijectionIffNoRepeatedAdd | src/libsecurecomm/src/mls_manager.cpp:33-59 | the index is a bijection onto the leaf positions if and only if no add in the run repeated a present member |
| GroupKeys.OpensIffUnchanged | src/libsecurecomm/src/mls_manager.cpp:75-136 | with any operations on any groups of the manager in between, a group envelope opens later if and only if no operation on its group has taken effect since |
| GroupKeys.OpensIffSameEpoch | src/libsecurecomm/src/mls_manager.cpp:75-136 | with header and ciphertext as sealed and all else rewritten at will, a manager opens the message if and only if it has the group, the envelope names it, and its group has the id, epoch and epoch secret under which it was sealed |
| GroupKeys.RunsShareIff | src/libsecurecomm/src/mls_manager.cpp:33-136 | two managers with any two runs of adds and removes to a group: the one opens what the other sealed if and only if as many operations took effect and the same leaves are seated in the same order |
| GroupKeys.SecretsAgreeIff | src/libsecurecomm/src/mls_manager.cpp:61-73 | the epoch secrets of two lists of 32-byte leaves are equal if and only if the lists are, where the hash does not collide on them; without leaves it is 32 zero bytes |
| GroupKeys.ConcatLayout | src/libsecurecomm/src/mls_manager.cpp:61-65 | the leaves lie end to end in order and are read back at every multiple of 32 |
| GroupKeys.SealSays | src/libsecurecomm/src/mls_manager.cpp:93-122 | the envelope names group, sender, both clock readings (the first modulo 2^32), and its header reads back as group id and epoch; the keyed hash of that header under the epoch secret opens it |
| GroupRuns.RunSeats | src/libsecurecomm/src/mls_manager.cpp:33-59 | over every run the erased and renumbered vector holds the leaves in the order in which they were added, without those of members that left, and the index points each member at its own |
| GroupKeys.InfoInjective | src/libsecurecomm/src/mls_manager.cpp:78-87 | group id followed by the 8-byte big-endian epoch determines both |
| GroupRuns.EpochCounts | src/libsecurecomm/src/mls_manager.cpp:33-59 | only operations that take effect on a group move its epoch; without one the group is unchanged |
| GroupRuns.ChangeRealizes | src/libsecurecomm/src/mls_manager.cpp:33-59 | one add or remove keeps the correspondence with the roster |
| Mls.JoinKeepsLeaves | src/libsecurecomm/src/mls_manager.cpp:33-43 | an add disturbs nobody else's leaf and gives a new member the new leaf |
| Mls.LeaveKeepsLeaves | src/libsecurecomm/src/mls_manager.cpp:45-59 | erasing a leaf and renumbering leaves every other member with the leaf it had |
| Mls.MlsManager.CreateGroup | src/libsecurecomm/src/mls_manager.cpp:21-31 | a new group at epoch 1; an id that is taken keeps its group |
| Mls.MlsManager.AddMember | src/libsecurecomm/src/mls_manager.cpp:33-43 | throws for an unknown group, otherwise appends the leaf, keeps an existing index and rekeys; keeps every group consistent |
| Mls.MlsManager.RemoveMember | src/libsecurecomm/src/mls_manager.cpp:45-59 | throws for an unknown group, ignores an unknown member, otherwise erases, renumbers and rekeys; keeps every group consistent |
| Mls.MlsManager.Decrement | src/libsecurecomm/src/mls_manager.cpp:54-56 | the loop over the index decrements exactly the entries above the removed position |
| Mls.MlsManager.DeriveEpochSecret | src/libsecurecomm/src/mls_manager.cpp:61-73 | the concatenation loop hashes all leaves in order, with a zero secret for an empty group |
| Mls.MlsManager.EncryptGroupMessage | src/libsecurecomm/src/mls_manager.cpp:93-122 | the envelope is sealed under the key of the current epoch with id and epoch as header |
| Mls.MlsManager.DecryptGroupMessage | src/libsecurecomm/src/mls_manager.cpp:124-136 | tries the key of the group's current epoch, whoever asks |
| Mls.MlsManager.GetGroupEpoch | src/libsecurecomm/src/mls_manager.cpp:144-148 | zero for an unknown group |
| Hkdf.ExpandMeetsRfc5869 | src/libsecurecomm/src/ratchet.cpp:62-92 | up to 255 blocks the output is the first bytes of T(1), T(2), ... of section 2.3 of RFC 5869 |
| Hkdf.ShorterIsPrefix | src/libsecurecomm/src/ratchet.cpp:62-92 | a shorter output is a prefix of every longer one |
| Hkdf.OutputRepeats | src/libsecurecomm/src/ratchet.cpp:67-88 | beyond the limit of the RFC the one-byte counter wraps and the output repeats every 256 blocks |
| Hkdf.HkdfExpand | src/libsecurecomm/src/ratchet.cpp:62-92 | the buffer-filling loop writes exactly that stream, for every output length |
| Hkdf.LoopBlockIsT | src/libsecurecomm/src/ratchet.cpp:70-89 | the i-th block of the loop is T(i) |
| Envelopes.ParseIffEncodingIsPrefix | src/libsecurecomm/src/dispatcher.cpp:166-257 | the dispatcher's parser accepts exactly the byte strings that start with a serialization, and returns what was serialized |
| Envelopes.RoundTripIff | src/libsecurecomm/src/dispatcher.cpp:166-257 | the seven carried fields survive the round trip if and only if no length cast to 32 bits truncates |
| Envelopes.FieldLayout | src/libsecurecomm/src/dispatcher.cpp:166-216 | a field is four bytes that read as its length modulo 2^32, and then all its bytes |
| Envelopes.StrictPrefixRejected | src/libsecurecomm/src/dispatcher.cpp:166-257 | every strict prefix of a serialization is rejected |
| Envelopes.FormatsAgree | src/libsecurecomm/src/envelope.cpp:27-67 | Envelope::serialize is the version word, the dispatcher's serialization, then the length-prefixed signature and aad |
| Envelopes.ParseFullIffEncodingIsPrefix | src/libsecurecomm/src/envelope.cpp:69-119 | the ten-field parser succeeds exactly on byte strings that start with a ten-field serialization, and returns it |
| Envelopes.FullRoundTripIff | src/libsecurecomm/src/envelope.cpp:27-119 | all ten fields survive the round trip if and only if no length cast truncates |
| Codec.SerializeEnvelope | src/libsecurecomm/src/dispatcher.cpp:166-216 | the push_back sequence writes the seven fields in that format |
| Codec.DeserializeEnvelope | src/libsecurecomm/src/dispatcher.cpp:218-257 | the advancing offset computes the parse, on every input |
| Codec.SerializeFull | src/libsecurecomm/src/envelope.cpp:27-67 | writes the ten-field format |
| Codec.DeserializeFull | src/libsecurecomm/src/envelope.cpp:69-119 | computes the ten-field parse, or throws, on every input that no unchecked read overruns |
| Bytes.PushU32 | src/libsecurecomm/src/ratchet.cpp:12-17 | four pushes write the big-endian word |
| Bytes.ReadU32 | src/libsecurecomm/src/ratchet.cpp:19-27 | reads the big-endian word back, and fails exactly when fewer than four bytes are left |
| Bytes.PushU64 | src/libsecurecomm/src/dispatcher.cpp:189-190 | the shift loop writes the big-endian timestamp |
| Bytes.ReadU64 | src/libsecurecomm/src/dispatcher.cpp:236-239 | the accumulate loop reads it back |
| RatchetSession.Ratchet.constructor | src/libsecurecomm/src/ratchet.cpp:129-137 | empty keys, zero counters, a key pair from the drawn private key |
| RatchetSession.Ratchet.InitializeWith | src/libsecurecomm/src/ratchet.cpp:145-156 | both chains become the root, counters zero, last peer forgotten, skipped keys kept; refuses other than 32 bytes |
| RatchetSession.Ratchet.DeriveChains | src/libsecurecomm/src/ratchet.cpp:94-118 | new root, send and receive chain from the shared secret by HKDF with the two labels |
| RatchetSession.Ratchet.Step | src/libsecurecomm/src/ratchet.cpp:158-172 | one Diffie-Hellman step; a bad key size or a failing secret changes nothing |
| RatchetSession.Ratchet.EncryptEnvelope | src/libsecurecomm/src/ratchet.cpp:174-202 | envelope and new state of the specification the delivery theorems are about |
| RatchetSession.Ratchet.DecryptEnvelope | src/libsecurecomm/src/ratchet.cpp:204-263 | result and new state of that specification, on every envelope |
| RatchetSession.Ratchet.Meet | src/libsecurecomm/src/ratchet.cpp:219-230 | the peer key check, with the thrown case leaving the state alone |
| RatchetSession.Ratchet.SkipKey | src/libsecurecomm/src/ratchet.cpp:232-237 | one round of the skip loop, keeping an entry that is already there |
| RatchetSession.Ratchet.TryOpen | src/libsecurecomm/src/ratchet.cpp:238-259 | stored key if there is one, else the current chain key; consumed only on success |
| RatchetSession.Ratchet.EncryptBytes | src/libsecurecomm/src/ratchet.cpp:264-271 | the header and the ciphertext of the envelope, concatenated |
| RatchetSession.Ratchet.DecryptBytes | src/libsecurecomm/src/ratchet.cpp:273-283 | nothing on fewer than 36 bytes, otherwise the string cut at 36 and decrypted under the own session id |
| RatchetSession.Ratchet.ExportState | src/libsecurecomm/src/ratchet.cpp:284-294 | the seven fields in order |
| RatchetSession.Ratchet.ImportState | src/libsecurecomm/src/ratchet.cpp:296-309 | the seven fields back, or nothing changed when there are too few bytes |
| RatchetSession.DecryptKeyed | src/libsecurecomm/src/ratchet.cpp:204-263 | key sizes and session id survive every envelope, whatever it contains |
| Dispatch.SessionIdsAgree | src/libsecurecomm/src/dispatcher.cpp:44-64 | the two ends of every pair of device ids derive the same sixteen-byte session id, for every root |
| Dispatch.SessionIdsAgreeIff | src/libsecurecomm/src/dispatcher.cpp:44-64 | two sessions have the same id if and only if the roots and the ordered concatenations of the device ids are equal, where the truncated hash does not collide on them |
| Dispatch.SplitsShareSessionId | src/libsecurecomm/src/dispatcher.cpp:46-54 | pairs of ids that split the same text differently have the same session id for the same root |
| Dispatch.LexTotal | src/libsecurecomm/src/dispatcher.cpp:47 | the order on device ids is total and asymmetric |
| Dispatch.LexLessIff | src/libsecurecomm/src/dispatcher.cpp:47 | the order is that of std::string: the first is a proper prefix of the second or has the smaller byte where they first differ |
| Dispatch.Dispatcher.constructor | src/libsecurecomm/src/dispatcher.cpp:10-15 | no id, no sessions, no callback, no groups |
| Dispatch.Dispatcher.RegisterDevice | src/libsecurecomm/src/dispatcher.cpp:32-36 | sets the id and nothing else |
| Dispatch.Dispatcher.SetOnInbound | src/libsecurecomm/src/dispatcher.cpp:106-110 | installs the callback and changes nothing else |
| Dispatch.Dispatcher.DeriveSessionId | src/libsecurecomm/src/dispatcher.cpp:44-64 | the first sixteen bytes of the keyed hash of the two ids in order and the root |
| Dispatch.Dispatcher.CreateSessionWith | src/libsecurecomm/src/dispatcher.cpp:38-71 | creates or reuses the entry, then initializes it with the derived session id; a refused root leaves the entry behind uninitialized |
| Dispatch.Dispatcher.SendMessageToDevice | src/libsecurecomm/src/dispatcher.cpp:73-95 | throws without an initialized session, otherwise hands the serialized envelope with the own id to the transport |
| Dispatch.Dispatcher.SendGroupMessage | src/libsecurecomm/src/dispatcher.cpp:97-104 | always throws, since the dispatcher's group manager is empty in every reachable state |
| Dispatch.Dispatcher.OnRawMessage | src/libsecurecomm/src/dispatcher.cpp:112-164 | parse, route by sender, decrypt, call back with the plaintext; the group branch is never taken |
| Offline.OfflineQueue.QueueMessage | src/libsecurecomm/src/modules/offline/queue_manager.cpp:73-109 | a pending row with a new row id, its texts cut at the first NUL; a row with the same message id goes away; an empty payload is refused and changes nothing |
| Offline.InsertKeepsInv | src/libsecurecomm/src/modules/offline/queue_manager.cpp:47-58 | message ids stay unique; the new row is pending, untried and for its recipient up to the first NUL, with its text and time; an older row is lost exactly when the new message repeats its id up to the first NUL; an empty message leaves no row |
| Offline.PickedIfOld | src/libsecurecomm/src/modules/offline/queue_manager.cpp:115-122 | a pending row is in the next batch if fewer than a hundred other pending rows are as old |
| MessageIds.IdsAgreeIff | src/libsecurecomm/src/enhanced_dispatcher.cpp:99-104 | as stored, two message ids of one sender agree if and only if recipient and millisecond agree, where none contains a NUL; with a NUL in the own id all of them agree, with one in the recipient's those to it agree at all times |
| MessageIds.RowSurvivesIff | src/libsecurecomm/src/enhanced_dispatcher.cpp:111-118 | over any run of failed sends, a message keeps the row it was given, with its text, if and only if no later one that is not empty is stored under its id |
| MessageIds.AllKeptIff | src/libsecurecomm/src/enhanced_dispatcher.cpp:95-120 | a run of failed sends keeps every message that is not empty if and only if no two of those are to the same recipient in the same millisecond, where no id contains a NUL |
| Offline.OfflineQueue.NextOldest | src/libsecurecomm/src/modules/offline/queue_manager.cpp:115-122 | a pending row than which none of the remaining ones is older |
| Offline.OfflineQueue.GetPendingMessages | src/libsecurecomm/src/modules/offline/queue_manager.cpp:111-154 | the oldest pending rows, oldest first, all of them or a hundred |
| Offline.OfflineQueue.MarkDelivered | src/libsecurecomm/src/modules/offline/queue_manager.cpp:156-172 | changes the status of that message id only |
| Offline.OfflineQueue.MarkFailed | src/libsecurecomm/src/modules/offline/queue_manager.cpp:174-197 | changes status, time and retry count of that message id only |
| Offline.OfflineQueue.GetStats | src/libsecurecomm/src/modules/offline/queue_manager.cpp:212-236 | the three counts add up to the rows and the retries equal the failures |
| Offline.StatsBalance | src/libsecurecomm/src/modules/offline/queue_manager.cpp:212-236 | every row is counted in exactly one status and each failure was retried once |
| Retry.EnhancedDispatcher.RegisterDevice | src/libsecurecomm/src/enhanced_dispatcher.cpp:85-88 | the id becomes that of the dispatcher too |
| Retry.EnhancedDispatcher.SendMessageToDevice | src/libsecurecomm/src/enhanced_dispatcher.cpp:95-120 | sent if and only if the dispatcher has an initialized session, otherwise queued under sender, recipient and millisecond unless it is empty; the counters rise either way |
| Retry.EnhancedDispatcher.CheckConnectivity | src/libsecurecomm/src/enhanced_dispatcher.cpp:126-152 | online exactly when not in offline mode, offline exactly when also without a mesh uplink; never connecting |
| Retry.EnhancedDispatcher.Attempt | src/libsecurecomm/src/enhanced_dispatcher.cpp:172-182 | one attempt hands the message to the dispatcher, whose new state and packet are those of a send, and marks it delivered if a packet left and failed if not |
| Retry.EnhancedDispatcher.RetryQueuedMessages | src/libsecurecomm/src/enhanced_dispatcher.cpp:154-187 | a pass while not offline sends the oldest hundred pending messages through the dispatcher in order: its new state and the packets are those of sending each of them once; it settles exactly those rows, and never meets one past the retry limit |
| Batches.SendsInOrder | src/libsecurecomm/src/enhanced_dispatcher.cpp:164-182 | the messages of a batch for one recipient leave as the next messages of its session in the order of the batch: the packets are the serialized envelopes that encrypting them in turn gives, and the session is left as that leaves it |
| Batches.PassIsSends | src/libsecurecomm/src/enhanced_dispatcher.cpp:164-182 | to the two-party network a retry pass is a run of sends to the peer and of writing to others, so what Network.EndToEnd says of all runs covers runs with retry passes |
| Batches.SentIffReady | src/libsecurecomm/src/enhanced_dispatcher.cpp:172-182 | a packet leaves for exactly those messages whose recipient has an initialized session |
| Batches.BatchPackets | src/libsecurecomm/src/enhanced_dispatcher.cpp:164-182 | each message of a batch for the peer leaves as a packet with its text under the number that follows those for the peer before it, whoever else the batch is for |
| Retry.UnsentLeaves | src/libsecurecomm/src/enhanced_dispatcher.cpp:95-187 | a message that was queued because its recipient had no session, and that has one by the next pass, leaves in that pass if fewer than a hundred pending rows are as old: as the next packet of the session, with its text, and its row ends delivered |
| Retry.QueuedLeaves | src/libsecurecomm/src/enhanced_dispatcher.cpp:154-187 | the same for any pending row |
| Retry.PassOnRow | src/libsecurecomm/src/enhanced_dispatcher.cpp:164-182 | in a pass a row is left alone, or was pending and ends delivered if a packet left for it and failed if not |
| Retry.DrainsByHundreds | src/libsecurecomm/src/enhanced_dispatcher.cpp:154-187 | after m passes without new messages max(0, n - 100 m) of n are pending |
| Retry.AttemptedOnce | src/libsecurecomm/src/enhanced_dispatcher.cpp:164-182 | a pending row is handed to the dispatcher at most once and is pending until then, and a packet leaves for it exactly if it ends delivered; no other row is touched, so a failed message is never tried again |
| Retry.DrainsCompletely | src/libsecurecomm/src/enhanced_dispatcher.cpp:154-187 | with enough passes every pending row was handed to the dispatcher exactly once, none is left, and a packet left for exactly those marked delivered |
| Retry.PassCounts | src/libsecurecomm/src/enhanced_dispatcher.cpp:154-187 | a pass reduces the pending rows by the size of its batch |
| Retry.MarkSettles | src/libsecurecomm/src/modules/offline/queue_manager.cpp:156-197 | marking by message id settles that one row |

## Left out

- Dispatch.Dispatcher.OnRawMessage: requires the session of the named sender, if there is one, to be initialized; an entry whose root key was refused has empty chain keys, and what the source then reads is undefined.
- Routing.SessionsIsolated: for an arrival at such an entry follows the value functions, which give the empty keys a meaning; the frame of the other sessions does not depend on it.
- RatchetSession.Ratchet.EncryptEnvelope: requires initialized keys for the same reason, as does DecryptEnvelope.
- Codec.DeserializeFull: requires that no unchecked slice or timestamp read runs past the input, where the source is undefined; reads that throw are modelled.
- Sessions.RatchetDelivers: bounds each direction to fewer than 2^32 messages, where the 32-bit counter wraps; for messages that arrive in order `Sessions.InOrder` has no bound.
- Sessions.UnnamedReceiverIff: is about a first envelope with a session id; one without leaves the receiver unnamed, and no sender makes one.
- Foreign.AfterForeignKey: is about one foreign key and genuine arrivals after it; for any number of them Foreign.AtMostOnceWhatever states what is never taken, not what is.
- Network.EndToEnd: takes the sessions with each other as created once; for another creation with the same root see `Network.RecreatedSession`. It leaves out injected bytes that carry a foreign key, which cost messages (`Foreign.AfterForeignKey`), a forged sender, which can add one (`Network.ForgedSenderOpensIff`), or a rewritten index, which is reported as written (`Network.RewrittenIndexReported`).
- Offline.OfflineQueue.QueueMessage: takes every empty payload as one without storage; an empty vector with reserved storage would be stored as an empty blob.
- Mls.LeaveKeepsLeaves: is for consistent groups; erasing at an index out of range is undefined in the source and no run of operations reaches it.
- Fifo.FirstInFirstOut: takes the body of on_raw_message as one step, since everything it touches is under the dispatcher mutex it holds.
- The AEAD wrapper's stored key: every use in the ratchet and the group manager sets it immediately before.
- Liveness of the worker: `stop` sets the flag without the mutex, so a wake-up can be missed; the model lets a waiting worker wake at any time and states what it can do (`Transport.WorkerCanFinish`), not that it will.
- `TransportBridge` registration and delivery to oneself without a peer: the transports are the connected pair.
- Ties between rows queued in the same second: SQL leaves their order open; the model takes the lower row id, the contract leaves it open.
- `cleanup_old_messages`: deletes settled rows only and nothing here calls it.
- X3DH, the mesh network, the websocket transport, the servers and the Android client: not part of this model.
- libsodium itself, logging and the zeroing of memory: not part of this model.
- `migrate_from_old_format`: copies one field when another is empty.
