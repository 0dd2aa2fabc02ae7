# SpaceTimeMC proxy: the connection stack and the server actor

This project models the proxy's connection stack layer by layer, and the actor that serves it, and proves what the
layers promise together.

- **Encrypted socket** (`Cfb8`, `Sockets`, `WriterTheory`, `ReaderTheory`). A duplex over a stream that may be busy, take
  part of a write, or deliver in arbitrary pieces. The cipher register advances as bytes are encrypted, so a write that
  is retried must not encrypt again; the pending ciphertext stands for plaintext the caller still holds. CFB-8 is written
  out as in section 6.3 of NIST SP 800-38A (s = 8); the block cipher is any function of a key and a block.
- **Framing** (`VarInts`, `Codec`, `CodecTheory`, `Framing`). The incremental decoder with its two states, the encoder,
  and the framer with its two buffers and its flush loop. The decoder refines a stateless parser of the whole stream.
- **One direction end to end** (`Pipe`). Encode, encrypted write, network, decryption, decode, with the two ends
  switching to encryption at their own moments.
- **Connections** (`Connection`, `ConnectionTheory`, `LoginTheory`, `SessionOutcomes`, `Actors`, `ClientView`).
  Handshake, then status, or login, encryption and configuration, with the handovers of the socket and codec between
  actors. The actors are classes over the sockets and framers below; each is proved to do what a function of the
  arriving data and the server's answers says.
- **Server actor** (`StatusCache`, `ServerSystem`, `ServerTheory`, `ServerRuns`, `ServerFacts`, `Server`,
  `ServerAnswers`). A bounded mailbox, one-shot replies, any number of clients, shutdown, and the cached listing: a
  transition system, the code over mutable state that refines it, and the properties of all its runs.

Adversaries are scripts: a stream carries what its reads and writes are going to meet, including the timer of the waiting
actor, and every theorem quantifies over the scripts. A write script that is used up accepts everything; a read script
that is used up is the end of the stream. A byte is a number below 256; 32-bit wrap-around is written out.

Where the code does less than one would expect, the model follows the code:

- The handover from the handshake to the login actor and the change to the encrypted socket keep the socket and the codec
  and drop what the framer had buffered (`login.rs:26-32`, `login.rs:138-142`). A login therefore depends on how the
  client's bytes are cut. `HandoverLosslessIffCut` and `SwitchLosslessIffCut` say exactly when nothing is lost,
  `SegmentationMattersForLogin` and `SegmentationMattersAtSwitch` give runs that show it, and `SessionFromBytes` proves
  independence otherwise. The status path moves the framer whole and is independent of segmentation without condition.
- A failed send is not noticed by the actors, which go on. What is said about the wire is said for streams on which no
  write has failed; what was handed to the socket, and that later writes stay in range, is said in any case.
- A new configuration replaces the listing, count and all, while players keep their flags; `ReplacementResetsCount` says
  when the count survives this. Nothing in the proxy calls `add_player` or `remove_player` yet.
- A shared secret shorter than sixteen bytes ends the login task (`login.rs:240`), without a shutdown;
  `LoginAbortsIff` and `SessionAbortsIff` say exactly when. Longer secrets are cut.

## Model

| member | source | states |
|---|---|---|
| Common.ExclusiveOrIsXor | proxy/src/client_actor/mc_socket.rs:112-119 | the exclusive or of two bytes is the one byte each of whose eight bits is set exactly if it is set in just one of them |
| Cfb8.Cfb8IsEncrypt | proxy/src/client_actor/mc_socket.rs:112-119 | the byte-by-byte encryption is the one solution of the CFB-8 equations of NIST SP 800-38A, with the input block of every segment written out as the last 16 bytes of IV and ciphertext so far |
| Cfb8.Cfb8IsDecrypt | proxy/src/client_actor/mc_socket.rs:73-81 | the byte-by-byte decryption solves the same equations for the plaintext, uniquely, for every ciphertext |
| Cfb8.DecryptEncrypt | proxy/src/client_actor/mc_socket.rs:36-40 | decryption under the key and IV undoes encryption under the same key and IV, for every cipher and plaintext |
| Cfb8.EncryptConcat | proxy/src/client_actor/mc_socket.rs:113-119 | encrypting in pieces, carrying the register over, is encrypting the whole |
| Cfb8.DecryptConcat | proxy/src/client_actor/mc_socket.rs:73-81 | decrypting in pieces, carrying the register over, is decrypting the whole |
| Sockets.DecryptInPlace | proxy/src/client_actor/mc_socket.rs:76-80 | the loop turns exactly its stretch of the buffer into the decryption and leaves the rest and returns the register after it |
| Sockets.MCSocket.constructor | proxy/src/client_actor/mc_socket.rs:32-34 | a new socket is in clear |
| Sockets.MCSocket.SetEncrypted | proxy/src/client_actor/mc_socket.rs:36-59 | a socket in clear becomes encrypted both ways with the key as IV and nothing pending; an encrypted one is left alone and reports failure |
| Sockets.MCSocket.PollRead | proxy/src/client_actor/mc_socket.rs:63-86 | bytes already in the buffer stay; the bytes delivered are the decryption of what arrived, under the register carried on |
| Sockets.MCSocket.PollWrite | proxy/src/client_actor/mc_socket.rs:90-138 | one write refines `WriteStep`: what is offered, taken, kept pending, and reported in each of the three outcomes |
| ReaderTheory.ReceivedOpens | proxy/src/client_actor/mc_socket.rs:63-86 | what arrives is, by the equations of the standard, the encryption of what is delivered, and the register moves on by exactly the bytes that arrived; nothing else of the socket changes |
| ReaderTheory.FragmentationIrrelevant | proxy/src/client_actor/mc_socket.rs:63-86 | for every cut of the stream the deliveries put together are those of the whole, in either mode, and so is the register |
| ReaderTheory.ReaderInvertsWriter | proxy/src/client_actor/mc_socket.rs:36-40 | in whatever fragments a ciphertext arrives, a socket with the same key delivers the plaintext |
| WriterTheory.OfferedInStep | proxy/src/client_actor/mc_socket.rs:103-119 | what a write offers continues the wire to the ciphertext of all acknowledged and buffered plaintext; pending bytes are not encrypted again |
| WriterTheory.WriteStaysInStep | proxy/src/client_actor/mc_socket.rs:103-135 | after Pending the buffer, after Ready(n) the buffer without its first n bytes, is again in step with wire, pending bytes and register; n is within the buffer |
| WriterTheory.WriteKeepsPendingWithin | proxy/src/client_actor/mc_socket.rs:103-114 | after every outcome, failure included, the pending ciphertext is no longer than what remains of the buffer, so the next subtraction and slice are in range |
| WriterTheory.WriteSealsOnce | proxy/src/client_actor/mc_socket.rs:103-135 | one write encrypts, by the equations of the standard, just the bytes behind the pending ones, and the register moves on by these; what the stream does not take is kept in order |
| WriterTheory.WriterRefinesCipher | proxy/src/client_actor/mc_socket.rs:103-135 | for every schedule of appends and writes without failure the wire is the ciphertext of exactly the acknowledged plaintext, with the pending bytes that of it and the buffer's front, and the register is the one after precisely that |
| VarInts.ReadWrite | proxy/src/client_actor/net.rs:44-55 | every 32-bit value is read back from its encoding, of at most five bytes, whatever follows |
| VarInts.WriteFormat | proxy/src/client_actor/net.rs:121-134 | every 32-bit value is written as groups of seven bits of its two's complement, low ones first, all bytes but the last at least 128, in at most five bytes and without a superfluous one |
| VarInts.ReadFormat | proxy/src/client_actor/net.rs:44-55 | every such string, whoever wrote it and whatever follows, is read as the 32-bit value congruent to the sum of its groups |
| VarInts.ReadOtherwise | proxy/src/client_actor/net.rs:44-55 | of the other inputs, five or more bytes that all ask for a successor are too long, fewer are truncated |
| VarInts.PrefixFree | proxy/src/client_actor/net.rs:121-134 | no encoding is a prefix of another value's |
| VarInts.ReadConfined | proxy/src/client_actor/net.rs:71-76 | reading within the first n bytes succeeds exactly when the unconfined reading ends within them, with the same value |
| Codec.MCCodec.DecodeHead | proxy/src/client_actor/net.rs:38-60 | waits without consuming on a truncated prefix; otherwise consumes exactly the prefix and yields its value |
| Codec.MCCodec.DecodeBody | proxy/src/client_actor/net.rs:62-79 | waits without consuming until n bytes are there; then yields id and payload of exactly those n bytes |
| Codec.MCCodec.Decode | proxy/src/client_actor/net.rs:85-118 | one decode call: state, buffer and result in every case |
| Codec.MCCodec.Encode | proxy/src/client_actor/net.rs:124-134 | appends the length prefix and the body to the buffer and touches nothing before |
| CodecTheory.DecodeStepExtend | proxy/src/client_actor/net.rs:85-118 | bytes that arrive later change no decision: a waiting decoder resumes, a packet or a failure stands |
| CodecTheory.DecodeProgress | proxy/src/client_actor/net.rs:85-118 | each packet takes at least one byte off the front; asking again without new bytes changes nothing |
| CodecTheory.ChunkingIrrelevant | proxy/src/client_actor/net.rs:85-118 | decoding chunk by chunk from any settled state gives packets, state and rest of decoding the concatenation |
| CodecTheory.DrainIsParse | proxy/src/client_actor/net.rs:38-79 | draining a buffer is parsing it frame by frame with a parser that has no state and reads the id inside the frame |
| CodecTheory.DecoderRefinesParser | proxy/src/client_actor/net.rs:38-118 | for every byte stream and every way to cut it: packets, state and unconsumed bytes are those of the one-shot parser on the whole |
| CodecTheory.FrameFormat | proxy/src/client_actor/net.rs:124-134 | a frame is the length of its body in groups of seven bits, followed by the body |
| CodecTheory.FrameRoundTrip | proxy/src/client_actor/net.rs:62-79 | an encoded body is decoded to its id and payload and leaves the tail, exactly when a complete id leads the body |
| CodecTheory.PacketRoundTrip | proxy/src/client_actor/net.rs:71-76 | every 32-bit id and payload survive |
| CodecTheory.FrameListRoundTrip | proxy/src/client_actor/net.rs:62-134 | a list of frames followed by anything decodes to exactly those packets and then goes on with what follows |
| CodecTheory.PrefixDecodesToPrefix | proxy/src/client_actor/net.rs:81-134 | any prefix of a stream of frames decodes without failure to a prefix of the packets |
| Framing.Framed.WriteOnce | proxy/src/client_actor/mc_socket.rs:103-135 | one write of the whole buffer drops the acknowledged front and keeps the account of the wire; its precondition holds whenever the framer calls it |
| Framing.Framed.Flush | proxy/src/client_actor/stream_actor.rs:65-67 | writes until the buffer is empty or a write fails, for every script; then the wire is fully accounted for; it succeeds on every stream that takes something whenever it is not busy |
| Framing.Framed.Send | proxy/src/client_actor/stream_actor.rs:58-75 | keeps the framer valid, records the frame handed over with the key of its socket, and leaves the receiving half as it was; it succeeds on every stream that takes something whenever it is not busy |
| Framing.Framed.Fill | proxy/src/client_actor/mc_socket.rs:63-86 | appends what one read delivers to the read buffer |
| Framing.Framed.PollNext | proxy/src/client_actor/stream_actor.rs:23-25 | decodes what is buffered, reads only when more is needed, and refines `PollStep` |
| Pipe.StepKeepsInv | proxy/src/client_actor/mc_socket.rs:62-138 | every send, write, delivery, decode call and switch keeps sender, receiver and decoder in agreement about one plaintext |
| Pipe.DeliversPlaintext | proxy/src/client_actor/mc_socket.rs:42-86 | the receiver recovers exactly the plaintext of this place of the stream, whichever ends have switched |
| Pipe.PipeIsOrderly | proxy/src/client_actor/mc_socket.rs:62-138 | for every schedule of a lock-step pair the packets that came out are a prefix of those sent |
| Pipe.PipeDelivers | proxy/src/client_actor/mc_socket.rs:62-138 | once the writer and the network are empty everything sent has come out, the decoder is between frames, and the two registers agree |
| Pipe.SwitchDividesWire | proxy/src/client_actor/login.rs:130-144 | up to the sender's switch the wire is the plaintext, and everything acknowledged after it is one CFB-8 ciphertext under the key with the key as IV |
| Pipe.StuckIsQuiescent | proxy/src/client_actor/mc_socket.rs:62-138 | in every reachable state nothing can move exactly when all buffers are drained: the decoder never fails on what a peer sent |
| Pipe.TransportDelivers | proxy/src/client_actor/mc_socket.rs:62-138 | in whatever order writer, network and decoder take turns, they move things a bounded number of times, and when nothing moves any more everything sent has come out |
| Pipe.CanCatchUp | proxy/src/client_actor/mc_socket.rs:62-138 | from every reachable state some schedule of that bounded length delivers everything |
| Pipe.LastFrameDrains | proxy/src/client_actor/login.rs:82-92 | in every reachable state in which the last frame sent has been decoded, no buffer and no network holds anything, and the codec is in state Len |
| Pipe.SwitchAtFrameBoundary | proxy/src/client_actor/login.rs:130-144 | when the receiver switches because it has decoded the last frame sent, the codec is in state Len and there is nothing buffered or in flight that the switch could lose |
| ConnectionTheory.IncomingIsAll | proxy/src/client_actor/mc_socket.rs:63-86 | a stream on which nothing fails and no timer fires gives all its bytes, however often it is not ready |
| ConnectionTheory.NextFrameAlongStream | proxy/src/client_actor/stream_actor.rs:27-52 | the frame awaited is the one the parser finds at the front of all that arrives before the stream ends, fails or the timer fires |
| ConnectionTheory.StatusFromBytes | proxy/src/client_actor/status.rs:63-96 | a status session depends on the bytes alone, however they are cut |
| ConnectionTheory.NextFrameKeepsCuts | proxy/src/client_actor/stream_actor.rs:23-52 | awaiting a frame reads no chunk beyond the one the frame ends in |
| ConnectionTheory.HandoverLosslessIffCut | proxy/src/client_actor/login.rs:26-32 | the login actor sees the true rest of the stream exactly when a chunk ends with the handshake frame |
| ConnectionTheory.SwitchLosslessIffCut | proxy/src/client_actor/login.rs:138-142 | the encrypted socket decrypts the true rest of the stream exactly when a chunk ends with the frame before the switch |
| ConnectionTheory.LoginFromBytes | proxy/src/client_actor/login.rs:70-144 | with a chunk boundary before the switch a login depends on the bytes alone, the encrypted part included |
| ConnectionTheory.SessionFromBytes | proxy/src/client_actor/handshake.rs:69-155 | a whole connection depends on the bytes alone: always on the status path, with the two boundaries on the login path |
| LoginTheory.SecretIffProof | proxy/src/client_actor/login.rs:190-241 | a key comes out exactly when both requests were accepted, the decrypted token is this login's, and the secret has sixteen bytes, which are the key |
| LoginTheory.LoginTraceSafe | proxy/src/client_actor/login.rs:70-128 | the outputs are a prefix of the request in clear and login success under the proven key; success and configuration only for the profile and key of an authenticated stream |
| LoginTheory.AuthenticatedSucceeds | proxy/src/client_actor/login.rs:92-110 | an authenticated client is sent both packets |
| LoginTheory.LoginAbortsIff | proxy/src/client_actor/login.rs:70-97 | a login gives up exactly if its request went out and the response in its client's stream proves the token with a decryptable secret shorter than a key |
| LoginTheory.SessionAbortsIff | proxy/src/client_actor/handshake.rs:69-92 | a connection is left without its stream being shut down exactly on such a login, or if the server does not take its status request |
| LoginTheory.LongSecretNeverAborts | proxy/src/client_actor/login.rs:190-241 | a run whose own secret has at least sixteen bytes is never given up, whatever its token and whatever else could be decrypted |
| LoginTheory.SessionBounds | proxy/src/client_actor/handshake.rs:69-92 | at most two packets and four awaited frames, three off the login path; only the handshake's choice leads to login or status packets |
| LoginTheory.SegmentationMattersForLogin | proxy/src/client_actor/login.rs:26-32 | two cuts of the same bytes with different outputs: the boundary after the handshake is needed |
| LoginTheory.SegmentationMattersAtSwitch | proxy/src/client_actor/login.rs:138-142 | for every cipher and key, two cuts of the same bytes, both with the boundary after the handshake, of which only one gets to configuration: the boundary before the switch is needed |
| SessionOutcomes.FirstPacketMeaning | proxy/src/client_actor/stream_actor.rs:77-111 | a packet is taken exactly from a frame with the expected id whose payload can be parsed |
| SessionOutcomes.FrameBegins | proxy/src/client_actor/net.rs:124-134 | what a peer that writes id and payload by the book sends is such a frame |
| SessionOutcomes.NoHandshake | proxy/src/client_actor/handshake.rs:69-92 | without a handshake to status or login nothing is sent and the connection is closed |
| SessionOutcomes.StatusRefused | proxy/src/client_actor/status.rs:16-37 | if the server does not take the question, nothing is sent |
| SessionOutcomes.StatusUnasked | proxy/src/client_actor/status.rs:63-75 | without a status request nothing is sent |
| SessionOutcomes.StatusAndPing | proxy/src/client_actor/status.rs:63-96 | on request and ping the listing and the echo are sent, in clear and in this order; the echo alone if the listing was lost |
| SessionOutcomes.StatusWithoutPing | proxy/src/client_actor/status.rs:63-96 | on a request alone the listing is sent, or nothing if it was lost |
| SessionOutcomes.LoginUnanswered | proxy/src/client_actor/login.rs:146-188 | without the public key or a request that can be written the login ends with nothing sent |
| SessionOutcomes.LoginServed | proxy/src/client_actor/login.rs:70-110 | a client whose frames start a login and prove a key is sent the request in clear and login success for its profile under this key |
| SessionOutcomes.LoginConcluded | proxy/src/client_actor/login.rs:112-127 | it goes on to configuration exactly if the rest of its stream, decrypted under the key, begins with the acknowledgement |
| SessionOutcomes.LoginUnproven | proxy/src/client_actor/login.rs:190-241 | a client that proves no key is sent the request and nothing more |
| Actors.NextFrameWithTimeout | proxy/src/client_actor/stream_actor.rs:27-52 | refines `NextFrame`: a frame, or none on timeout, error or end |
| Actors.Read | proxy/src/client_actor/stream_actor.rs:77-111 | the parsed payload of a frame with the expected id, none otherwise |
| Actors.SendPacket | proxy/src/client_actor/stream_actor.rs:54-75 | false only for a packet that cannot be written; otherwise the frame is recorded under the socket's key |
| Actors.Shutdown | proxy/src/client_actor/stream_actor.rs:113-122 | closes the stream |
| Actors.StatusActor.Run | proxy/src/client_actor/status.rs:63-75 | refines the status session in frames handed out and waits, and closes the stream |
| Actors.StatusActor.HandleStatusRequest | proxy/src/client_actor/status.rs:77-90 | takes the receiver, which is there; sends its reply, or nothing if the sender was dropped |
| Actors.StatusActor.HandlePingRequest | proxy/src/client_actor/status.rs:92-95 | echoes the payload |
| Actors.LoginActor.Run | proxy/src/client_actor/login.rs:70-128 | refines the login session in frames handed out, waits and end; the stream is left open exactly by an aborted task |
| Actors.LoginActor.AwaitResponse | proxy/src/client_actor/login.rs:82-97 | refines the part of the login session from the request on |
| Actors.LoginActor.Conclude | proxy/src/client_actor/login.rs:92-128 | demands a decoder between frames; success goes out under the new key for the profile taken at login start, and the acknowledgement is read through the new socket |
| Actors.LoginActor.AwaitAcknowledgement | proxy/src/client_actor/login.rs:112-127 | configuration for this profile if the acknowledgement comes; the stream is closed either way |
| Actors.LoginActor.HandleLoginStart | proxy/src/client_actor/login.rs:146-188 | fills profile and token unless the server refuses; true exactly if the request went out |
| Actors.LoginActor.HandleEncryptionResponse | proxy/src/client_actor/login.rs:190-241 | refines `SecretOf`, whose meaning `SecretIffProof` gives |
| Actors.LoginActor.Encrypt | proxy/src/client_actor/login.rs:130-144 | same socket and codec, empty buffers, fresh registers both ways; the failure for an encrypted socket does not arise |
| Actors.ConfigurationActor.Run | proxy/src/client_actor/configuration.rs:62-66 | closes the stream |
| Actors.HandshakeActor.Run | proxy/src/client_actor/handshake.rs:69-92 | refines the whole session through whatever actors take over |
| Actors.HandshakeActor.TransitionStatus | proxy/src/client_actor/handshake.rs:134-143 | the framer moves whole; it is dropped if the server does not take the question |
| Actors.HandshakeActor.TransitionLogin | proxy/src/client_actor/handshake.rs:145-154 | stream and codec move, the buffered bytes do not |
| Actors.ServeConnection | proxy/src/client_actor/handshake.rs:19-42 | from acceptance to end: frames handed out, waits, end, whether the stream was shut down, and the wire of a stream on which no write failed, which is every stream that takes something whenever it is not busy |
| ClientView.LoginWire | proxy/src/client_actor/login.rs:92-110 | the wire of a login is the request in clear followed by the ciphertext of login success, and nothing else |
| ClientView.LoginUnderstood | proxy/src/client_actor/login.rs:70-110 | if every write succeeded, the client that proved the key decodes the front of the wire in clear and the rest after decryption, and gets exactly the request and its own login success |
| ClientView.ConnectionUnderstood | proxy/src/client_actor/handshake.rs:69-155 | for every connection whose writes succeeded the client decodes from the wire exactly the packets sent: all in clear, or the request in clear and login success under the key the client proved |
| StatusCache.CachedStatus.FromConfig | proxy/src/server_actor/connection_cache.rs:77-90 | a fresh listing with nobody online and a current rendering |
| StatusCache.CachedStatus.AddPlayer | proxy/src/server_actor/connection_cache.rs:101-116 | counts a player no listing counts yet; rendering and count stay right |
| StatusCache.CachedStatus.RemovePlayer | proxy/src/server_actor/connection_cache.rs:118-133 | uncounts a counted player; the count stays right exactly if it was this listing that counted the player, and then the decrement does not wrap |
| StatusCache.CachedStatus.Update | proxy/src/server_actor/connection_cache.rs:135-149 | takes over the configuration and keeps the count |
| StatusCache.ListingConserved | proxy/src/server_actor/connection_cache.rs:101-149 | after every history the count is the number of players last added, modulo the word size, the rendering is current, and but for the count the response is written out for the last configuration |
| StatusCache.ListedSince | proxy/src/server_actor/connection_cache.rs:101-133 | a player counts as listed exactly if added and not removed since |
| StatusCache.LastConfigShown | proxy/src/server_actor/connection_cache.rs:135-149 | the configuration shown is that of the last update, or the one at start if there was none |
| StatusCache.CountExact | proxy/src/server_actor/connection_cache.rs:118-133 | below 2^32 players the count is exact and whoever is removed was counted |
| StatusCache.ReplacementResetsCount | proxy/src/server_actor/actor.rs:157-167 | a listing built afresh while players keep their flags has the right count exactly if nobody is counted; otherwise the next removal wraps |
| ServerRuns.StepKeepsInv | proxy/src/server_actor/actor.rs:144-209 | every step of clients and server keeps bounds, order, stamps, answers and the match of one-shots to pending asks |
| ServerRuns.WaitingMeansProgress | proxy/src/server_actor/actor.rs:144-183 | whenever a one-shot is unanswered the server can step, and the step resolves it or brings it nearer |
| ServerRuns.WaitingForSpaceMeansProgress | proxy/src/server_actor/actor.rs:25 | whenever senders wait for space the server can step, and two steps shorten the line |
| ServerRuns.EventuallyAnswered | proxy/src/actor_ref.rs:30-45 | an ask is resolved within a bounded number of server steps, whatever clients do in between |
| ServerRuns.AnswerStands | proxy/src/actor_ref.rs:30-45 | a resolved one-shot never changes |
| ServerRuns.AnsweredOnceAndRight | proxy/src/server_actor/actor.rs:144-183 | asks admitted are those handled, in service and queued, each with a one-shot of its own; each handled one has the answer to its own request; its sender was dropped exactly on a failed decryption; nothing is answered that was not handled; the queue stays within sixteen |
| ServerRuns.EveryAskAnswered | proxy/src/server_actor/actor.rs:144-183 | every ask admitted is handled within a bounded number of server steps, whatever clients do; its one-shot, which no other ask shares, then holds the answer to its own request at its place in the mailbox order |
| ServerRuns.StatusNeverGoesBack | proxy/src/main.rs:87-104 | a status reply shows the last update before it in mailbox order, and later replies never an older one, though updates are dropped on a full mailbox |
| ServerFacts.AskJoinsLine | proxy/src/actor_ref.rs:30-36 | on an open mailbox an ask makes a new unanswered one-shot and joins the end of the line, at once if fewer than sixteen are queued |
| ServerFacts.SendJoinsLine | proxy/src/server_actor/actor.rs:46-48 | so does every other message but an update, without a one-shot |
| ServerFacts.OfferAdmittedIff | proxy/src/main.rs:87-104 | an update is admitted exactly if the mailbox is open and fewer than sixteen are queued |
| ServerFacts.ClosedTakesNothing | proxy/src/actor_ref.rs:30-36 | a closed mailbox refuses every ask at once and takes no message |
| ServerFacts.OrderKept | proxy/src/server_actor/actor.rs:144-149 | the line of all messages handled and pending only grows at its end, except that a shutdown cuts off those still waiting for space |
| ServerFacts.StatusShowsConfig | proxy/src/server_actor/actor.rs:157-167 | every status request handled was told the rendering of the listing, written out field by field, of the last update before it in mailbox order or of the initial configuration |
| ServerFacts.UpdatesAreOffered | proxy/src/main.rs:87-104 | the updates admitted are a selection of those offered, in their order and unaltered, however many are dropped |
| ServerFacts.DroppedIff | proxy/src/server_actor/actor.rs:172-183 | in every run a reply is lost exactly if its decryption failed or a shutdown was handled before its ask was admitted |
| ServerRuns.ClosedIffShutDown | proxy/src/server_actor/actor.rs:185-199 | in every run the mailbox is closed exactly if a shutdown was handled |
| ServerRuns.ShutdownEndsLoop | proxy/src/server_actor/actor.rs:144-149 | an admitted shutdown ends the loop within a bounded number of server steps |
| ServerRuns.EndsDrained | proxy/src/server_actor/actor.rs:185-199 | the loop ends only after a handled shutdown, with every admitted message handled in order and nobody left unanswered |
| ServerRuns.ClosedAdmitsNothing | proxy/src/server_actor/actor.rs:185-199 | after the shutdown nothing is admitted and every ask is refused at once |
| ServerRuns.DrainTerminates | proxy/src/server_actor/actor.rs:144-149 | after the shutdown the loop ends within twice the queue's length and two steps |
| ServerAnswers.ServerKeepsItsWord | proxy/src/server_actor/actor.rs:154-183 | what the connections are assumed to be told is what an accepted request is told in every run |
| ServerAnswers.RefusedOnceClosed | proxy/src/actor_ref.rs:29-36 | after closing nothing is admitted and later asks fail |
| Server.Mailbox.Send | proxy/src/server_actor/actor.rs:46-48 | waits in line for space; fails on a closed mailbox |
| Server.Mailbox.TrySend | proxy/src/server_actor/actor.rs:50-52 | fails on a closed or full mailbox and never waits |
| Server.Mailbox.Recv | proxy/src/server_actor/actor.rs:146 | first come first served; the freed place goes to the first in line |
| Server.OneShots.DropSenders | proxy/src/actor_ref.rs:34-35 | the messages turned away take their reply senders with them |
| Server.ServerActor.constructor | proxy/src/server_actor/actor.rs:87-109 | starts the system's initial state |
| Server.ServerActor.HandleMessage | proxy/src/server_actor/actor.rs:154-183 | refines the handling step for every message |
| Server.ServerActor.ShutDown | proxy/src/server_actor/actor.rs:185-199 | the wait for tasks returns at once, because the tracker it waits for never has one; closes the mailbox |
| Server.ServerActor.StartOneListener | proxy/src/server_actor/actor.rs:201-209 | the listener runs as the one task of a new tracker; the server's own is not touched |
| Server.ServerActor.Serve | proxy/src/server_actor/actor.rs:146-148 | one step of the loop, receiving or handling what was received, is one step of the system |
| Server.ServerActor.Run | proxy/src/server_actor/actor.rs:144-149 | the loop refines the transition system for every schedule of clients, who may act between any two steps, and stops only when the system has ended |
| Server.ServerActor.Client | proxy/src/actor_ref.rs:30-45 | asks, sends and offers of clients refine the transition system |

## Left out

- Codec.DecodeStep: what follows a malformed frame (a prefix that is too long or negative, an id that does not end inside its frame) is one outcome, Malformed; whether the code returns an error or stops otherwise is not modelled, and nothing is claimed after it.
- Framing.Framed.Send: a send that the stream never finishes is not modelled, every script of refusals being finite. Once a write has failed the contract no longer says what the write buffer and the wire hold; the record of frames handed over goes on, also for a frame that is not encoded because 8 KiB are waiting and flushing them fails again.
- Actors.LoginActor.Encrypt: called only on a socket in clear, which `Run` establishes; the error for an encrypted socket is in `Sockets.MCSocket.SetEncrypted`.
- Actors.HandshakeActor.Run: the actor that takes over is run to its end by the one that hands over, instead of as a task of its own; that one actor owns the socket at a time is then by construction. The handshake's framer holds a socket in clear where the source holds the bare stream.
- ServerSystem.Post: when a place in the mailbox becomes free, the message of the first sender in line is admitted in the same step; in tokio that sender first has to be woken.
- AES, RSA, key generation, DER encoding, JSON rendering, base64 and icons, the protocol number in the listing, and the field formats and ids of packets: uninterpreted parameters, with decryption, parsing and writing partial.
- The TCP accept loop, signals, logging, `main` start-up, the SpacetimeDB connection and its reducers, the HTTP client and public keys of the authentication service, the procedural macro and the build scripts.
- Wakers, pinning, capacity reservation and `set_compression`, which is not written yet.
- Which task the scheduler runs next: the server's steps are counted, not timed. The timer of a waiting actor fires at any moment at which there is nothing to read.
- `StatusCache.Config` keeps the two fields of the configuration that the listing shows; the number carried by an update is that of its source and is not seen by the server.
