# Chat server core: a verified model

A Dafny model of the self-contained core of a chat server: the keyed packet checksum and the
acceptor that uses it, the session transport, the pooled allocator, the bounded log and the user
registry. `dafny verify dfyconfig.toml` checks all of it.

## What is modelled

**Keyed checksum.** `Words` gives fixed-width words as bounded naturals with exclusive or.
`ShiftRegister` is the reference: one message bit per clock, feedback given by an arbitrary 32-bit
key in reflected order. `Crc32` is the table-driven, eight-way unrolled code, `User` the table
construction and the acceptor. `Checksum` states what the checksum detects, `Polynomial` and
`CrcPolynomial` what it means: division over GF(2), as in section 8 of RFC 1952 with the fixed
polynomial replaced by the key. `Acceptor` states runs of the acceptor.

**Session transport.** `WriteQueue` is the sending side as a machine whose environment decides when
strand tasks run, how many bytes a write transmits and whether it succeeds. `ReadMachine` is the
receiving side fed byte by byte, so that the cutting of the stream into pieces does not matter.
`Framing` is the wire format with its reference parser, `SimpleBuffer` the buffer in a pool block,
`Session` the session object whose callbacks are proved to take the steps of both machines, and
`EndToEnd` joins sender and receiver.

**Allocator.** `RingBuffer` interleaves the atomic steps of any number of callers of one ring
(decrement, look, body, release), `RingCalls` what one call among them returns.
`InterleavedAllocator` is the whole manager on such rings: any number of clients, each anywhere
inside a push or pop. `Allocator` is the same manager with rings as stacks and ring operations as
single steps; the first is proved to take only steps of the second, with a push taking effect where
it stores and a pop where it lowers the count. `PoolSafety` states what follows for every
interleaving, `RequestOrder` the way of a request through the rings, and `Reuse` exhibits runs.
`PoolClients` puts any number of handler allocators and buffers on one manager, and `PoolRequests`
says event by event what becomes of their requests. `OneClient` follows one thread through a push or
pop and `ManagerRuns` through a whole request, which is how `AllocateManager`, `HandlerAllocator` and
`SimpleBuffer`, the objects with their methods, are runs of the interleaved machine.

**Log and registry.** `CircularStack` is the modular-index ring as a log. `Registry` is the user map
with paging in key order (`KeyOrder`), `RegistryRace` its check-then-insert under interleaving.

## Where the code does not do what it seems meant to do

The model follows the code in each case and says exactly when the expected property holds.

- A successful ring `push` decrements the counter a second time, and the sized constructor starts it
  at 0 (src/VCommon/VAllocatorHandler.h:64 and 32): `RingBuffer.AtMostOnePush`. The pool therefore
  never hands out a block again, and would with an increment: `Reuse.NeverReusesIff`. Mutual
  exclusion, linearisation, conservation and sizes are proved for both.
- Burst detection needs bit 31 of the key, which nothing in `InitSecretKey` ensures:
  `Checksum.DetectsBurstsIff`, `Acceptor.RejectsCorruptionIff`.
- An empty body skips the checksum comparison (src/VNetWork/VUser.cpp:126):
  `Acceptor.ChecksumEnforcedIff`. An empty packet with the expected number takes the place of the
  sender's: `Acceptor.EmptyDisplaces`, and which insertions do harm is `Acceptor.InsertionIff`.
- `SendPacket` has no length limit but the receiver stops reading at 1024: `EndToEnd.AllDispatchedIff`,
  with a run in `EndToEnd.OversizedIsLost`.
- A `get` that does not reset drops entries once the ring has wrapped: `CircularStack.GetKeepsIff`,
  with a run in `CircularStack.FullGetEmpties`.
- `Stop` leaves the ring counts, so a second one frees again: `PoolSafety.SecondStopIff`, with a run
  in `Reuse.StopTwiceFreesTwice`. `Start` replaces the arrays under the counts:
  `PoolSafety.StartConservesIff`.
- The capacity test and the insertion take the lock separately: `RegistryRace.CapacityBound`,
  `RegistryRace.BoundReached` and `RegistryRace.WithinMaxIff`.
- `CreateUser` ignores the result of `AddUser`: `RegistryRace.NoOrphansIff`.

## Model

| member | source | states |
|---|---|---|
| `ShiftRegister.StepLinear` | src/VNetWork/VUser.cpp:115-116 | One shift of the keyed register is linear over GF(2), for every key |
| `ShiftRegister.StepInjective` | src/VNetWork/VUser.cpp:115-116 | With bit 31 of the key set, two registers that shift to the same value are equal |
| `ShiftRegister.SerialOfWord` | src/VCommon/crc32.h:94 | Feeding the bits of a word one by one equals folding the word in at once and shifting |
| `Crc32.TableByteIsSerial` | src/VCommon/crc32.h:94 | For the table of a key, one table look-up equals eight bit-serial shifts fed with the byte |
| `Crc32.TableIsSerial` | src/VCommon/crc32.h:92-117 | For every key, seed and buffer the table-driven register equals the bit-serial one |
| `Crc32.GetCRC` | src/VCommon/crc32.h:92-117 | The eight-way unrolled loop and its tail compute the checksum of the first nLen bytes for any table, and the bit-serial checksum of a key for the table of that key |
| `User.VUser.InitSecretKey` | src/VNetWork/VUser.cpp:106-120 | After the nested loops entry n of the table is n shifted eight times under the key; the sequence restarts at 0 |
| `Checksum.Resume` | src/VCommon/crc32.h:92-117 | GetCRC(GetCRC(s, a), b) = GetCRC(s, a ++ b) for every split |
| `Checksum.Affine` | src/VCommon/crc32.h:92-117 | For equal lengths, the checksum of a^b^c is the exclusive or of the three checksums |
| `Checksum.CollisionIff` | src/VCommon/crc32.h:92-117 | Two equal-length buffers have the same checksum from one seed exactly when their difference shifts a zero register to zero |
| `Checksum.BitBurstDetected` | src/VCommon/crc32.h:92-117 | With bit 31 of the key set, any error inside 32 adjacent bits, at any bit offset, changes the register |
| `Checksum.BurstDetected` | src/VCommon/crc32.h:92-117 | With bit 31 of the key set, buffers that differ only within four adjacent bytes have different checksums |
| `Checksum.DetectsBurstsIff` | src/VNetWork/VUser.cpp:110-118 | Every such burst is detected if and only if bit 31 of the key is set; otherwise four-byte buffers collide |
| `Polynomial.RemainderIff` | src/VCommon/crc32.h:92-117 | Long division over GF(2) gives a remainder of smaller degree, and no other polynomial is one |
| `CrcPolynomial.SerialIsLongDivision` | src/VNetWork/VUser.cpp:110-118 | Clocking a message through the register is long division by x^32 plus the reflected key |
| `CrcPolynomial.CrcIsRemainder` | src/VCommon/crc32.h:92-117 | The complement of the checksum of n bytes is the one remainder of R0 x^(8n) + M x^32 modulo the key's polynomial, R0 being the complemented seed |
| `CrcPolynomial.CollisionIffDivides` | src/VCommon/crc32.h:92-117 | An altered buffer of the same length keeps its checksum exactly when the key's polynomial divides the difference times x^32 |
| `User.VUser.CheckSecurity` | src/VNetWork/VUser.cpp:122-133 | Accepts exactly the expected sequence number with an empty body or a matching checksum; advances the 32-bit sequence on acceptance and changes nothing otherwise |
| `Acceptor.AcceptedInOrder` | src/VNetWork/VUser.cpp:122-133 | In every run the j-th accepted packet carries sequence number (s + j) mod 2^32 |
| `Acceptor.NoReplay` | src/VNetWork/VUser.cpp:122-133 | No sequence number is accepted twice within 2^32 acceptances |
| `Acceptor.RejectsCorruptionIff` | src/VNetWork/VUser.cpp:122-133 | Packets altered within four adjacent body bytes are all rejected if and only if bit 31 of the key is set |
| `Acceptor.AcceptsExactlyTheSenderIff` | src/VNetWork/VUser.cpp:122-133 | With foreign packets anywhere, none of them a copy, exactly the sender's packets are accepted, in order, if and only if every foreign one has another number than expected at its place, or a body and a wrong checksum |
| `Acceptor.AcceptsExactlyTheSender` | src/VNetWork/VUser.cpp:122-133 | Corrupted packets and packets with other numbers are invisible wherever they arrive, when bit 31 of the key is set |
| `Acceptor.ChecksumEnforcedIff` | src/VNetWork/VUser.cpp:126-127 | Every packet accepted for a body carries the body's checksum if and only if the body is not empty |
| `Acceptor.InsertionIff` | src/VNetWork/VUser.cpp:122-133 | One packet inserted before the j-th of the sender's leaves what is accepted unchanged if and only if it fails the test there or is a copy of the j-th |
| `Acceptor.OneDisplaces` | src/VNetWork/VUser.cpp:122-133 | An inserted packet that passes the test takes the place of the sender's packet with its number, which is then rejected |
| `Acceptor.EmptyDisplaces` | src/VNetWork/VUser.cpp:124-129 | An empty packet with the expected number is accepted with any checksum and displaces the sender's packet with that number |
| `Framing.Layout` | src/VNetWork/VAsyncServer.hpp:8-16 | A printed frame is 14 bytes and the body; bytes 0 to 3 are those of nLen, 4 to 7 of nCrc, 8 to 11 of nSeq, 12 and 13 of nType, each lowest byte first, byte i of v being its i-th digit to base 256 |
| `Framing.UnpackPack` | src/VNetWork/VAsyncServer.hpp:8-16 | The 14-byte header reads back as it was laid out |
| `Framing.PackUnpack` | src/VNetWork/VAsyncServer.hpp:8-16 | Every 14 bytes are the layout of the header they read as |
| `Framing.HasFrameIff` | src/VNetWork/VAsyncServer.hpp:266-277 | A complete legal header and body lie at the front of a stream exactly when it begins with some printed legal frame |
| `Framing.ParseIff` | src/VNetWork/VAsyncServer.hpp:266-293 | The reference parse of a stream is the only list of legal frames that begins it and leaves no further complete legal frame |
| `Framing.ParseMonotone` | src/VNetWork/VAsyncServer.hpp:266-293 | Receiving more never takes back a frame |
| `Framing.LegalFrontIs` | src/VNetWork/VAsyncServer.hpp:266-277 | What a receiver keeps of a list of frames ends exactly before the first body of 1024 bytes or more |
| `Framing.ParseSized` | src/VNetWork/VAsyncServer.hpp:266-277 | Of printed frames, those before the first body of 1024 bytes or more are recovered |
| `ReadMachine.HeaderStartParses` | src/VNetWork/VAsyncServer.hpp:224-293 | Started without the flow byte, for every stream, cut anywhere and failing anywhere, the dispatched frames are the reference parse of the bytes received |
| `ReadMachine.FlowStartParses` | src/VNetWork/VAsyncServer.hpp:228-264 | Started with the flow byte, frames are dispatched only after an 'A', and then as the reference parse of the rest |
| `ReadMachine.ReadPrinted` | src/VNetWork/VAsyncServer.hpp:266-293 | Printing legal frames and reading them back is the identity |
| `Session.Session.Arrive` | src/VNetWork/VAsyncServer.hpp:214-293 | A received byte is stored inside its buffer and the read handlers move the session as the read machine says |
| `Session.Session.FailRead` | src/VNetWork/VAsyncServer.hpp:233-293 | A failed read ends reading and dispatches nothing |
| `Session.Session.HandleReadHeader` | src/VNetWork/VAsyncServer.hpp:266-277 | A header shorter than 1024 bytes starts the body read or dispatches an empty body at once; any other ends reading |
| `Session.Session.HandleReadBody` | src/VNetWork/VAsyncServer.hpp:279-293 | The header and its body are dispatched and the next header is read |
| `WriteQueue.Safe` | src/VNetWork/VAsyncServer.hpp:190-212 | In every reachable state a write is outstanding iff the queue is non-empty and no write failed; it is of the queue front; the wire is a prefix of what was sent; what is finished, queued and posted makes up what was sent |
| `WriteQueue.FailureStopsQueue` | src/VNetWork/VAsyncServer.hpp:295-312 | In every run, from the moment a write in progress fails, whatever follows, the wire stays what it was and no buffer leaves the queue; once the handler has run no write is outstanding again |
| `WriteQueue.BrokenIsSilent` | src/VNetWork/VAsyncServer.hpp:295-312 | Corollary for the state after the failed handler: nothing more reaches the wire and no buffer leaves the queue |
| `WriteQueue.AllIsWritten` | src/VNetWork/VAsyncServer.hpp:295-312 | Without failure, running the posted tasks and completing each queued write once puts on the wire exactly what was sent |
| `Session.Session.DoWrite` | src/VNetWork/VAsyncServer.hpp:197-212 | A buffer joins the queue, and is written at once if the queue was empty |
| `Session.Session.HandleWrite` | src/VNetWork/VAsyncServer.hpp:295-312 | Success pops the front and writes the next, if any, from its first byte; failure leaves the queue and starts no write |
| `Session.Session.SendBuffer` | src/VNetWork/VAsyncServer.hpp:190-194 | A valid buffer is posted to the strand, an invalid one is dropped |
| `Session.Session.Start` | src/VNetWork/VAsyncServer.hpp:114-136 | A new connection begins with an empty queue and the first read; a refused socket option changes nothing |
| `SimpleBuffer.SimpleBuffer.One` | src/VCommon/VCommonDefines.h:264-277 | The buffer owns a pool block asked for with its length, holding a copy of the data; it is valid exactly for non-null data of positive length, and no other block changes |
| `SimpleBuffer.SimpleBuffer.Two` | src/VCommon/VCommonDefines.h:279-296 | The buffer owns a pool block asked for with its exact length, holding both parts one behind the other; when it is valid; no other block changes |
| `SimpleBuffer.SimpleBuffer.Destroy` | src/VCommon/VCommonDefines.h:298-304 | A buffer that owns its block gives it back with the length it was asked for; afterwards it owns none |
| `Session.ChatUser.SendPacket` | src/VChatLib/VChatUser.cpp:17-23 | One frame with the given type, length and body is sent, its checksum and sequence fields being whatever they were |
| `EndToEnd.DispatchedInOrder` | src/VNetWork/VAsyncServer.hpp:190-312 | Whatever fails on either side, the peer dispatches a prefix of the frames sent, unaltered, up to the first oversized one |
| `EndToEnd.AllDispatchedIff` | src/VNetWork/VAsyncServer.hpp:266-312 | When every byte arrives, all frames sent are dispatched if and only if every body is shorter than 1024 bytes |
| `EndToEnd.OversizedIsLost` | src/VNetWork/VAsyncServer.hpp:266-277 | A run without any failure in which a frame of 1024 bytes or more is sent and received in full and nothing is dispatched |
| `RingBuffer.MutualExclusion` | src/VCommon/VAllocatorHandler.h:57-82 | In every interleaving signal_ = initial - callers inside - 2 * successful pushes as written (or - 0 as intended), at most one caller is in the section, and every access is in bounds |
| `RingBuffer.StepRefinesStack` | src/VCommon/VAllocatorHandler.h:57-82 | Every interleaved step acts on the contents as one push or pop of a stack, or not at all; a push that stored is about to return true, a pop that took about to return what it took |
| `RingBuffer.CallsAreAtomic` | src/VCommon/VAllocatorHandler.h:57-82 | In every interleaving a push about to return true has stored its pointer once and nothing else, a pop about to return a pointer has taken it once, and a call about to return false or null has done nothing |
| `RingCalls.PushReturnsIff` | src/VCommon/VAllocatorHandler.h:57-70 | Called in any reachable state, whatever other callers do until it returns, a push appends its pointer once and returns true if and only if the counter was 1 and there was room at the call; else it does nothing and returns false |
| `RingCalls.PopReturnsIff` | src/VCommon/VAllocatorHandler.h:72-82 | Likewise a pop takes and returns the newest pointer if and only if the counter was 1 and there was one at the call; else it does nothing and returns null |
| `RingCalls.ThreeStepsReturn` | src/VCommon/VAllocatorHandler.h:57-82 | A call has returned after at most three steps of its own, whatever the others do |
| `RingBuffer.AtMostOnePush` | src/VCommon/VAllocatorHandler.h:29-82 | As written, at most one push ever succeeds, none on a ring constructed with a size, and no pop returns a stored pointer |
| `RingBuffer.SafeRingBuffer.Push` | src/VCommon/VAllocatorHandler.h:57-70 | Alone, a push succeeds iff the counter is 1 and there is room, and is the solo run of the interleaved steps |
| `RingBuffer.SafeRingBuffer.Pop` | src/VCommon/VAllocatorHandler.h:72-82 | Alone, a pop takes the newest pointer iff the counter is 1 and there is one, and is the solo run of the interleaved steps |
| `RingBuffer.SafeRingBuffer.Clear` | src/VCommon/VAllocatorHandler.h:84-87 | Every stored pointer is handled once, oldest first |
| `SizeClasses.SlotIsLeast` | src/VCommon/VAllocatorHandler.h:201-208 | The slot of n is the least s with 2^s >= n, and 2^s < 2n for n >= 1 |
| `AllocateManager.AllocateManager.FindSlot` | src/VCommon/VAllocatorHandler.h:201-208 | The loop terminates with that slot for n up to 2^31 |
| `SizeClasses.SlotsWithRings` | src/VCommon/VAllocatorHandler.h:201-214 | The sizes that have rings are exactly those up to 2^15 |
| `InterleavedAllocator.StepRefines` | src/VCommon/VAllocatorHandler.h:57-82 | Every step of any client, inside a ring or outside, is a stutter or one step of the machine with atomic rings, as written and as intended |
| `InterleavedAllocator.Linearises` | src/VCommon/VAllocatorHandler.h:57-241 | Every run of any number of clients, with push and pop interleaved at every counter step, is a run of the machine whose ring operations are atomic; pushes take effect where they store, pops where they lower the count |
| `RequestOrder.RingsInOrder` | src/VCommon/VAllocatorHandler.h:210-241 | While a request lasts, amid any other clients, it leaves the rings of its slot in order from the first, each once and in vain, and comes to malloc or free if and only if it has left them all; above 2^15 bytes at once |
| `RequestOrder.RequestsEnd` | src/VCommon/VAllocatorHandler.h:210-241 | A request has ended after at most four steps of its own per ring and one more, whatever the others do |
| `PoolSafety.Conservation` | src/VCommon/VAllocatorHandler.h:57-241 | In every such run every block from malloc is in exactly one place: held by one client, carried by one call, at one position of one ring, or freed, once; and nothing else is anywhere |
| `PoolSafety.SizesFit` | src/VCommon/VAllocatorHandler.h:201-241 | In every such run held blocks are at least as large as asked for, exactly so above 2^15, and stored blocks have the size of their slot |
| `PoolSafety.NothingIsReused` | src/VCommon/VAllocatorHandler.h:57-241 | As written, in every interleaving Allocate returns a new block each time, and at most one block per ring is ever stored |
| `Reuse.NeverReusesIff` | src/VCommon/VAllocatorHandler.h:57-82 | No block is ever handed out again if and only if the second decrement is there: with an increment instead, some run hands out a block twice |
| `PoolSafety.StartConservesIff` | src/VCommon/VAllocatorHandler.h:47-55 | Start on any reachable state keeps every block exactly when nothing is stored, since the new arrays are zeroed and the counts stay |
| `PoolSafety.StopFreesOnce` | src/VCommon/VAllocatorHandler.h:243-248 | After a single Stop every block ever allocated was freed exactly once or is still held by a client |
| `PoolSafety.SecondStopIff` | src/VCommon/VAllocatorHandler.h:243-248 | In every reachable state a second Stop frees nothing twice exactly when nothing is stored |
| `Reuse.StopTwiceFreesTwice` | src/VCommon/VAllocatorHandler.h:243-248 | Some run does store a block, so that calling Stop twice is not safe in general |
| `PoolClients.SharedPool` | src/VNetWork/VAsyncServer.hpp:26-49 | In every run of any number of handler allocators and buffers on one manager, no block has two owners, every owner's block is handed out with exactly the size the owner will give it back with, every block handed out has an owner, and inline storage is in use exactly for its one live request |
| `PoolClients.SharedPoolFits` | src/VNetWork/VAsyncServer.hpp:26-37 | In every such run every live request, inline ones included, is at most as large as the memory it was given, the inline memory of a handler allocator being 1024 bytes |
| `PoolRequests.InlineIff` | src/VNetWork/VAsyncServer.hpp:26-37 | On unused storage a request goes inline, without the pool, if and only if it is below 1024 bytes; else its thread asks the pool |
| `PoolRequests.AskingAfter` | src/VNetWork/VAsyncServer.hpp:26-37 | After any event of any run a thread is asking the pool for a client if and only if the event sent it there, or it was asking before and the event did not hand it a block |
| `PoolRequests.LiveAfter` | src/VNetWork/VAsyncServer.hpp:26-49 | After any event of any run a request is live if and only if the event gave it this memory, or it was live before and the event did not give it back |
| `PoolRequests.BufferAfter` | src/VCommon/VCommonDefines.h:264-305 | After any event of any run a buffer has this block and length if and only if the event made it so, or it had them before and was neither destroyed nor handed a block |
| `PoolRequests.GivenBackIsCarried` | src/VNetWork/VAsyncServer.hpp:39-49 | A block given back is at once in the DeAllocate call of its thread, with the size it was asked for |
| `PoolRequests.StartGivesRoom` | src/VCommon/VAllocatorHandler.h:250-256 | Start while nothing is stored gives every ring its room and changes neither counts nor clients |
| `PoolRequests.AllAccountedFor` | src/VCommon/VAllocatorHandler.h:210-248 | With no call in progress every block from malloc is with a client, stored or freed, in exactly one of these and once |
| `OneClient.SoloPop` | src/VCommon/VAllocatorHandler.h:72-82 | One pop of a thread alone, from call to return, as steps of the interleaved machine |
| `OneClient.SoloPush` | src/VCommon/VAllocatorHandler.h:57-70 | One push of a thread alone, from call to return, as steps of the interleaved machine |
| `AllocateManager.AllocateManager.Allocate` | src/VCommon/VAllocatorHandler.h:210-227 | A call alone is a run of the interleaved machine and returns a block held by nobody and, as the code stands, new; of the next power of two up to 2^15 bytes, of the exact size above; rings and other blocks stay as they are |
| `AllocateManager.AllocateManager.DeAllocate` | src/VCommon/VAllocatorHandler.h:229-241 | A call alone is a run of the interleaved machine; a block of up to 2^15 bytes goes on top of the first ring of its slot whose counter is 1 and that has room, any other to free; null does nothing |
| `AllocateManager.AllocateManager.Start` | src/VCommon/VAllocatorHandler.h:250-256 | Gives every ring a new array whatever it holds; the state stays a reachable one if nothing was stored |
| `AllocateManager.AllocateManager.Stop` | src/VCommon/VAllocatorHandler.h:243-248 | Frees the contents of all rings in order and leaves the rings as they are |
| `HandlerAllocator.HandlerAllocator.Allocate` | src/VNetWork/VAsyncServer.hpp:26-37 | Memory no live request has, at least as large as asked for: the 1024 bytes of inline storage iff they are unused and the request is below 1024 bytes, and then the pool is untouched; else a pool block, the pool's other holdings unchanged |
| `HandlerAllocator.HandlerAllocator.Deallocate` | src/VNetWork/VAsyncServer.hpp:39-49 | The inline storage becomes free; every other block returns to the pool with the size it was asked for |
| `CircularStack.CircularStack.PushBack` | src/VCommon/VCommonDefines.h:198-200 | Appends to the log |
| `CircularStack.CircularStack.Get` | src/VCommon/VCommonDefines.h:206-224 | Copies out the newest min(k, N) of the k entries of the log, oldest first, and empties or keeps the log |
| `CircularStack.RetainsNewest` | src/VCommon/VCommonDefines.h:198-224 | After any run the retained entries are the newest ones pushed since the last reset, and min(k, N) of them if every read reset |
| `CircularStack.GetKeepsIff` | src/VCommon/VCommonDefines.h:209-215 | Corollary of Get: a read that does not reset keeps what is retained exactly while the ring has not wrapped, else the newest (index mod N) entries |
| `CircularStack.FullGetEmpties` | src/VCommon/VCommonDefines.h:209-215 | A run that shows it: after exactly N pushes such a read leaves nothing |
| `Registry.UserManager.GetUserIDArray` | src/VChatLib/VUserManager.cpp:139-163 | The loop returns positions max(a, 0) to b of the ids on the server in key order, to the end for negative b |
| `Registry.PageAt` | src/VChatLib/VUserManager.cpp:139-163 | Entry k of the page (a, b) is entry max(a, 0) + k of the full page, and exists exactly while both a full page and b allow it |
| `Registry.PageIsAll` | src/VChatLib/VUserManager.cpp:139-163 | The page from 0 to the end is every user on the server once, by ascending id, while ids equal keys |
| `Registry.PagesJoin` | src/VChatLib/VUserManager.cpp:139-163 | Corollary of GetUserIDArray: for 0 <= a <= b <= c the pages (a, b) and (b, c) make up the page (a, c) |
| `Registry.UserManager.AddUser` | src/VChatLib/VUserManager.cpp:69-93 | Registers exactly when the count is below the maximum, displacing a user with the same id without growing |
| `Registry.UserManager.CreateUser` | src/VChatLib/VUserManager.cpp:14-30 | Alone, returns a new registered user exactly when there is room |
| `Registry.UserManager.RemoveUser` | src/VChatLib/VUserManager.cpp:55-68 | Removes exactly this user, never another one registered under its id |
| `RegistryRace.CapacityBound` | src/VChatLib/VUserManager.cpp:69-74 | With up to T concurrent callers the registry never exceeds m_nMaxPlayer + T - 1, in every interleaving |
| `RegistryRace.BoundReached` | src/VChatLib/VUserManager.cpp:69-74 | Some interleaving reaches that bound, for every maximum and T |
| `RegistryRace.WithinMaxIff` | src/VChatLib/VUserManager.cpp:69-74 | The registry stays within m_nMaxPlayer in every run if and only if calls never overlap (or the maximum is 0) |
| `RegistryRace.NoOrphansIff` | src/VChatLib/VUserManager.cpp:14-30 | Every user CreateUser returns was registered if and only if calls never overlap (or the maximum is 0) |
| `RegistryRace.RegisteredAfter` | src/VChatLib/VUserManager.cpp:55-93 | After any event a user is registered under an id if and only if the event inserted it there, or it was registered there before and the event was neither its own removal nor the insertion of another under that id |
| `RegistryRace.RegisteredIff` | src/VChatLib/VUserManager.cpp:55-93 | In every interleaved run a user is registered exactly if some insertion of it was followed by neither its removal nor the insertion of another under its id |
| `RegistryRace.RemovalMakesRoom` | src/VChatLib/VUserManager.cpp:55-74 | A full registry refuses; after removing one registered user the next caller is registered |
| `RegistryRace.StaysRegistered` | src/VChatLib/VUserManager.cpp:55-93 | Corollary, following one user through a run: a registered user whom no event removes or displaces stays registered |

## Left out

- Sockets, acceptor, threads and the strand's internals: steps of the environment. A strand runs
  posted tasks one at a time in post order; a read or write completes in full or fails after a part.
- `Session.Session.Start`: taken to be called with no callback of this session pending, since pending
  callbacks keep the session object alive; a session restarted under a pending write is not modelled.
- The flash policy exchange beyond dispatching no frame: its answer is written to the socket directly.
- The null test of `sProcessPacket` before dispatch: a processor is taken to be installed.
- The three-argument `GetCRC` and its literal table: it returns 0 whatever it computes.
- `VUser` before `InitSecretKey`, when key and table are uninitialised.
- `InterleavedAllocator.StepRefines`: Start is one step and comes while nothing is stored, as at the
  start of the program; what it does at other times is `PoolSafety.StartConservesIff`. It always
  gives the rings the same size, as the source's constant does.
- `AllocateManager.AllocateManager.Allocate`: rings are embedded by value, not as objects with arrays
  of their own; malloc never fails and never reuses the name of a block.
- `AllocateManager.AllocateManager.FindSlot`: sizes above 2^31 shift past the word in the source.
- `Session.ChatUser.SendPacket`: required to stay within these sizes, for the same reason.
- `Session.Session.SendBuffer`: the queue holds the bytes of a buffer, not the shared pointer, which
  keeps them unchanged while queued. When the last pointer goes is not modelled; `PoolClients` lets
  a buffer be destroyed at any time.
- Overflow of the ring counter, of the log index and of the 32-bit player count.
- `JoinRoom`, `Close` and `SetState` in the registry: taken to leave the map unchanged.
- `Registry.UserManager.CreateUser`: creation of the user object is taken to succeed.
- `reserve` in `GetUserIDArray`: only a capacity hint.
- Session recycling, packet handlers, database, rooms, guilds, configuration and logging.
