# Verified models of the MOHPC network and collision cores

Dafny models of the algorithmic cores of the MOHPC library, with proofs. `dafny verify dfyconfig.toml` checks all of
them.

- **GameSpy keystream** (`Words`, `Tree`, `Keystream`, `StreamCipher`, `KeySchedule`). The key words of a stream are the
  leaves of an implicit binary tree of sixteen levels. `Seek` goes to one leaf, `Walk` goes on from leaf to leaf with
  an explicit stack; both are proved against one recursive description of the tree, so a walk in any number of pieces
  gives the words that seeking to every leaf would give. What the moves between the nodes do to the registers is
  proved byte by byte. Encryption is its own inverse, and the key schedules around the tree are permutations that
  the key leads back from.
- **Snapshots** (`Snapshot`, `ServerSnapshot`). The merge of an old frame with a delta stream reads and writes one
  circular buffer. Under the source's guard it computes exactly the merge, which in turn is the update of every
  entity by its number. The client's second circular buffer is proved to hand out only what was parsed for a number,
  and to record the merge for every message that it accepts, unless its new entities are too many.
- **Configstrings** (`Configstring`). A packed character pool with an offset table refines a sequence of strings; the
  characters in use are conserved, and the exact condition is given under which a call would leave the buffers.
- **Channel** (`Channel`). Fragment cutting and reassembly over a network that loses, repeats and reorders packets:
  what is delivered is always one whole message, and what arrives in order gets through, other packets in between.
  Headers are read from and written to bytes. The exact limits are proved too: 16-bit numbers, a port that `receive`
  does not read, and headers that hold the length of the whole message.
- **Collision** (`Geometry`, `LeafListing`, `BrushTrace`, `TreeTrace`). Over the reals: a box is listed with the leaf of
  every point in it, a swept box or capsule does not pass through a brush and stops exactly at its tolerance, and a
  sweep through the node tree visits the leaf of every point that it must and is stopped by no other brush.
- **SHA-256** (`Sha256`, `Sha256Bits`). Feeding a message in parts gives the digest of FIPS 180-4, whose functions are
  told bit by bit and whose constants are roots of primes.
- **Info strings** (`Info`), **requests** (`Requests`), **entity deltas** (`EntityDelta`), **reliable commands**
  (`Reliable`) and the **rolling exclusive or** (`Encoding`).

Machine words are numbers with their wrap-around written out (`Words`), C strings are strings without a NUL inside, and
memory that the source gets from a caller is a parameter. Exceptions, and reads or writes that would leave a buffer,
are outcomes. `Division` holds facts about quotients and places in a ring, `Options` a value that may be missing.

Where the source's comments and its code differ, the models follow the code: `Channel.cpp` says in lines 107 and
226-231 that repeated packets are discarded and that a fragment's header holds the fragment's length.

## Limits

Each of these is proved with the exact condition under which the code does what it is for, or with an input for which it
does not.

- `transmit` writes the port of the client behind the number, which a server reads and `receive` does not. A server gets
  exactly the messages that are shorter than the fragment size, as the header of a fragment holds the length of the whole
  message (`Channel.ServerDeliversExactlyWhen`, `Channel.HeadersDeliverNothing`). The library's own `receive` gets
  none of them as it was sent (`Channel.OwnReceiverDelivers`). Fragments with their own length get through up to number
  65535 (`Channel.FragmentsDeliverExactlyWhen`), and are delivered again when repeated (`Channel.RepeatDelivers`).
- The last accepted number falls exactly at a passing packet whose number wraps (`Channel.NeverFallsExactlyWhen`,
  `Channel.WrapReadmits`). A whole packet that arrives again is delivered again, and 65535 packets count as lost
  (`Channel.RepeatCountsLosses`).
- An empty old frame is parsed as if it held an entity from its slot, harmless under an exact condition only
  (`Snapshot.EmptyFrameMergesExactlyWhen`, `ServerSnapshot.PhantomRun`).
- What is handed out for a number beyond the current one is another snapshot
  (`ServerSnapshot.SnapshotManager.GetSnapshot`, `ServerSnapshot.WrongSnapshotRun`).
- The room check of the configstrings misses what the block moves need (`Configstring.ConfigStringManager.Set`,
  `Configstring.SameLengthOverruns`).
- An info buffer that was emptied is listed as one pair of empty strings (`Info.Enumerate`).
- The oldest unacknowledged command may be overwritten (`Reliable.ReliableSequence.UnacknowledgedKept`), and an empty
  command string is read behind its terminator (`Encoding.IndexStaysExactlyWhen`).
- A sweep is guided by the margins of the node planes: a shape that is too large for 2048, or a capsule that is wider
  than its half size along y, has points beyond them (`TreeTrace.BoxReachesExactlyWhen`, `TreeTrace.CapsuleBeyond`),
  for which `TreeTrace.NoTunnel` says nothing.

## Model

| member | source | states |
|---|---|---|
| `Tree.SavedDepth` | mohpc-lib/Network/GameSpy/EncryptShared.cpp:31-86 | The nodes that are saved on the way to a leaf are as many as the left turns of its path, so at most the number of levels. |
| `Tree.NextLeaf` | mohpc-lib/Network/GameSpy/EncryptShared.cpp:31-86 | The successor of a leaf and the nodes saved for it, from what was saved for the leaf: pop the last one, go right once and left from there on. This is what makes the walk and the seek meet. |
| `Tree.LastLeafSavesNothing` | mohpc-lib/Network/GameSpy/EncryptShared.cpp:31-86 | At the last leaf nothing is saved, so that only a walk beyond it would pop an empty stack. |
| `Tree.LeafHeap` | mohpc-lib/Network/GameSpy/EncryptShared.cpp:106-154 | The heap index of a leaf, as the registers carry it, is the number of leaves plus the leaf's number. |
| `Words.RotateRightByBytes` | mohpc-lib/Network/GameSpy/EncryptShared.cpp:54-75 | A rotation to the right by eight bits moves every byte down by one, the lowest around. |
| `Words.RotateLeftByBytes` | mohpc-lib/Network/GameSpy/EncryptShared.cpp:61-79 | A rotation to the left moves every byte up by one, the highest around. |
| `Words.XorByBytes` | mohpc-lib/Network/GameSpy/EncryptShared.cpp:58-66 | Exclusive or works byte by byte. |
| `Keystream.TurnsByBytes` | mohpc-lib/Network/GameSpy/EncryptShared.cpp:121-147 | For every table, the bytes of both registers after a turn: each byte has moved by two places and is xored with a byte of the two table words that the turn looks up, whose indices are given in bytes too; a right turn starts from the complement of the first register. |
| `Keystream.ZerosTurn` | mohpc-lib/Network/GameSpy/EncryptShared.cpp:121-147 | With a table of zeros a left turn moves both registers by two bytes, a right turn the second one and the complement of the first. |
| `Keystream.MixAdds` | mohpc-lib/Network/GameSpy/EncryptShared.cpp:118-120 | A mix adds the sum of the first register and the heap index to the second register, and once more for the first. |
| `Keystream.RootMixed` | mohpc-lib/Network/GameSpy/EncryptShared.cpp:113-120 | The first mix makes of the seed the word after it, and twice that word. |
| `Keystream.Seek` | mohpc-lib/Network/GameSpy/EncryptShared.cpp:106-154 | For every table, seed and number, the buffer is afterwards in the state of leaf n2 mod 65536 of the tree grown from n1: registers, heap index, and a stack as deep as there are left turns; the table is unchanged. |
| `Keystream.Walk` | mohpc-lib/Network/GameSpy/EncryptShared.cpp:31-86 | From the state of leaf k, the next len words are the key words of leaves k, k + 1, ..., each as a seek would give it, and the buffer is in the state of leaf k + len; the table is unchanged. |
| `Keystream.StopLeads` | mohpc-lib/Network/GameSpy/EncryptShared.cpp:31-86 | From the recursive description of a leaf, one step of the walk leads to the recursive description of the next one. |
| `Keystream.SeekAndWalk` | mohpc-lib/Network/GameSpy/EncryptShared.cpp:31-154 | For every table, every seed and every split into pieces, the words of a seek to leaf 0 and of the walks after it are the key words of leaves 0, 1, ..., each as a seek to it would give it. |
| `StreamCipher.Encrypt` | mohpc-lib/Network/GameSpy/EncryptShared.cpp:88-104 | Byte i of the data is xored with byte i mod 63 of refill i / 63 of the keystream, and the walk stops behind the last refill. |
| `StreamCipher.StreamByteAt` | mohpc-lib/Network/GameSpy/EncryptShared.cpp:88-104 | Sixty-three bytes are taken of every sixteen key words, the lowest byte of each word first. |
| `StreamCipher.StreamAt` | mohpc-lib/Network/GameSpy/EncryptShared.cpp:88-104 | Every byte of the stream is the byte of the refill that it falls into. |
| `StreamCipher.XoredTwice` | mohpc-lib/Network/GameSpy/EncryptShared.cpp:88-104 | Xoring twice with the same stream gives the data back: encryption is decryption. |
| `KeySchedule.MakeTable` | mohpc-lib/Network/GameSpy/EncryptShared.cpp:156-183 | The table is the shuffled one with every entry xored with its index, and the buffer is in the state of leaf 0 of the tree grown from 0. |
| `KeySchedule.RoundsPermute` | mohpc-lib/Network/GameSpy/EncryptShared.cpp:156-183 | For every non-empty key, each of the four byte lanes of the shuffled table is a permutation of 0..255 before the last exclusive or. |
| `KeySchedule.IndicesXoredLanes` | mohpc-lib/Network/GameSpy/EncryptShared.cpp:180 | The last exclusive or changes the lowest lane only, each byte by its index, and the same again undoes it. |
| `KeySchedule.PushAddsLane` | mohpc-lib/Network/GameSpy/EncryptShared.cpp:156-183 | Pushing the indices into the low bytes moves the lanes up and adds the identity as a lane. |
| `KeySchedule.StepsKeep` | mohpc-lib/Network/GameSpy/EncryptShared.cpp:156-183 | Any number of swap steps keeps every lane a permutation and the words a rearrangement of themselves. |
| `KeySchedule.PositionSums` | mohpc-lib/Network/GameSpy/EncryptShared.cpp:169-177 | After any number of swap steps the position has moved by all entries met and all bytes of the key, mod 256. |
| `KeySchedule.StepsBack` | mohpc-lib/Network/GameSpy/EncryptShared.cpp:169-177 | The key leads back from what any number of steps made to what they started from. |
| `KeySchedule.Func3` | mohpc-lib/Network/GameSpy/Encrypt1.cpp:164-182 | The table is the countdown after one swap step for every entry, and the two registers behind it are 0. |
| `KeySchedule.Func3Permutes` | mohpc-lib/Network/GameSpy/Encrypt1.cpp:164-182 | For every non-empty key the table of func3 is a permutation of 0..255. |
| `KeySchedule.Func5` | mohpc-lib/Network/GameSpy/Encrypt1.cpp:209-234 | The bounded rejection sampling ends within twelve rounds with a number in 0..cnt, equal to the recursive description of the rounds. |
| `KeySchedule.MaskPower` | mohpc-lib/Network/GameSpy/Encrypt1.cpp:209-219 | The mask is one less than the least power of two, from 2 on, above the number it is for. |
| `KeySchedule.Func4` | mohpc-lib/Network/GameSpy/Encrypt1.cpp:184-207 | The table is the one of the recursive description and the five registers are taken from it; an empty id changes nothing. |
| `KeySchedule.Func4Permutes` | mohpc-lib/Network/GameSpy/Encrypt1.cpp:184-207 | For every non-empty id, the table of func4 is a permutation of 0..255 after every number of trades. |
| `KeySchedule.PermutationContents` | mohpc-lib/Network/GameSpy/Encrypt1.cpp:164-207 | A permutation in this sense holds every value of 0..255 exactly once. |
| `Snapshot.GuardedPacket` | mohpc-lib/Network/Parsing/Snapshot.cpp:86-206 | For an accepted delta frame with entities, and fewer baseline inserts among them than a snapshot has room for, the ring holds exactly the merge behind what it held: no old entity is overwritten before it is read. |
| `Snapshot.FullPacket` | mohpc-lib/Network/Parsing/Snapshot.cpp:121-206 | Without an old frame the ring holds exactly the merge of nothing with the stream, starting from the baselines. |
| `Snapshot.ParseMerges` | mohpc-lib/Network/Parsing/Snapshot.cpp:121-206 | The same from any point of the merge, as long as the writes stay less than a ring ahead of the reads. |
| `Snapshot.MergeByNumber` | mohpc-lib/Network/Parsing/Snapshot.cpp:121-227 | For ascending frames and streams, the merge holds for every entity number what its update says: removed, changed from the old state or from the baseline, or copied. |
| `Snapshot.MergeAscends` | mohpc-lib/Network/Parsing/Snapshot.cpp:121-206 | The merge stays in ascending order of entity numbers. |
| `Snapshot.CommitRemembers` | mohpc-lib/Network/Parsing/Snapshot.cpp:208-227 | Writing an entity keeps the latest entities of the history in the ring; a removed one is written but not counted. |
| `Snapshot.ParseRemembers` | mohpc-lib/Network/Parsing/Snapshot.cpp:121-206 | Whatever is parsed, even without the guard, the history only grows. |
| `Snapshot.EmptyFramePacket` | mohpc-lib/Network/Parsing/Snapshot.cpp:121-206 | An old frame without entities: the parse leaves exactly what an old entity taken from its slot would lead to, as long as the inserts below it do not go round the ring; when nothing was counted since the frame, the first insert is taken for the old entity. |
| `Snapshot.EmptyFrameMergesExactlyWhen` | mohpc-lib/Network/Parsing/Snapshot.cpp:133-136 | For an ascending stream, this is the merge of nothing with the stream if and only if the entity from the slot is removed by the stream, or changed to what its baseline would become, or is a removed one that the stream does not name. |
| `ServerSnapshot.SnapshotManager.ParsePacketEntities` | mohpc-lib/Network/Parsing/Snapshot.cpp:121-206 | The loops over stream and old frame compute the recursive description of the parse on the ring. |
| `ServerSnapshot.SnapshotManager.ReadOldSnapshot` | mohpc-lib/Network/Parsing/Snapshot.cpp:69-107 | A delta is accepted if and only if it refers to none, or the slot of the number referred to holds that number's snapshot, valid and with room for 128 entities before the ring would overwrite it. |
| `ServerSnapshot.SnapshotManager.SetNewSnap` | mohpc-lib/Network/Client/ServerSnapshot.cpp:24-40 | Exactly the snapshots that are as many numbers back as there are slots become invalid, and the new one is stored, so that every valid slot still holds the snapshot of its number with the entities parsed for it. |
| `ServerSnapshot.SnapshotManager.ParseSnapshot` | mohpc-lib/Network/Client/ServerSnapshot.cpp:42-108 | A message is accepted exactly when it refers to none, or the snapshot as many numbers back as its delta byte tells is still in its slot, valid and at least 128 entities from being overwritten. It then records for its number the merge of that message's entities with the stream, or of the phantom of an empty one, whenever fewer than 128 of the stream's entities are new ones in front of an old one; without a reference, the merge of nothing. A message that is not accepted changes no snapshot, though its entities stay counted. |
| `ServerSnapshot.SnapshotManager.GetSnapshot` | mohpc-lib/Network/Client/ServerSnapshot.cpp:188-232 | What is found for a number up to the current one is the snapshot of that number with the entities parsed for it, not later ones; for a number beyond the current one it is another snapshot's. |
| `ServerSnapshot.ParsedEntities` | mohpc-lib/Network/Client/ServerSnapshot.cpp:42-108 | What a message appends to the history is that, for every old frame that is read in time, empty ones included. |
| `ServerSnapshot.DeltaRun` | mohpc-lib/Network/Client/ServerSnapshot.cpp:24-232 | A run through the client, for any two full messages and any delta on the first: it is accepted if and only if the two have at most 128 entities, and the caller then gets the first message's entities with the updates made. |
| `ServerSnapshot.PhantomRun` | mohpc-lib/Network/Parsing/Snapshot.cpp:133-136 | A run through the client: a full message without entities and a delta on it without updates lead to a snapshot with an entity that no message named. |
| `ServerSnapshot.WrongSnapshotRun` | mohpc-lib/Network/Client/ServerSnapshot.cpp:188-232 | A run through the client: asked for a number beyond the current one, it hands out the snapshot of another number. |
| `Configstring.ConfigStringManager.Set` | mohpc-lib/Network/Types/Configstring.cpp:101-202 | Exactly one outcome by what can be seen before the call; success sets the string of the number and leaves every other one, anything else leaves all. |
| `Configstring.ConfigStringManager.Get` | mohpc-lib/Network/Types/Configstring.cpp:87-94 | The string last set for the number; a number beyond the table is refused, and the one right at its end would be read outside. |
| `Configstring.ConfigStringManager.Replace` | mohpc-lib/Network/Types/Configstring.cpp:113-171 | The block move, the copy and the moved offsets put the new string in the place of the old one. |
| `Configstring.ConfigStringManager.Remove` | mohpc-lib/Network/Types/Configstring.cpp:144-171 | The gap is closed, the offset cleared, the largest number lowered and the later offsets moved. |
| `Configstring.ConfigStringManager.Append` | mohpc-lib/Network/Types/Configstring.cpp:173-196 | The string is put behind the last one; the room check misses the terminator by one. |
| `Configstring.ConfigStringManager.Conserved` | mohpc-lib/Network/Types/Configstring.cpp:112-196 | dataCount is 1 plus the sum of all lengths with their terminators, and the largest number with a string is the recorded one. |
| `Configstring.SetAll` | mohpc-lib/Network/Types/Configstring.cpp:101-202 | After any run of calls up to the first that fails, every number has the string that was last set for it. |
| `Configstring.SameLengthOverruns` | mohpc-lib/Network/Types/Configstring.cpp:113-136 | A string replaced by one of the same length, for which the pool has room: the room check passes, but the move of the tail leaves the buffer. |
| `Configstring.ConsistentReplaced` | mohpc-lib/Network/Types/Configstring.cpp:113-171 | Replacing keeps pool, offsets and texts consistent. |
| `Configstring.ConsistentRemoved` | mohpc-lib/Network/Types/Configstring.cpp:144-171 | So does removing. |
| `Configstring.ConsistentAppended` | mohpc-lib/Network/Types/Configstring.cpp:173-196 | And appending. |
| `Configstring.PackFits` | mohpc-lib/Network/Types/Configstring.cpp:112-196 | The packed strings take exactly the room that the strings by number need. |
| `Channel.Netchan.Receive` | mohpc-lib/Network/Remote/Channel.cpp:56-176 | One datagram does to the fields what one step of the reassembly does to the state, by the header that is read from its bytes. |
| `Channel.Netchan.Transmit` | mohpc-lib/Network/Remote/Channel.cpp:178-335 | A short message leaves whole, a long one in fragments, under the next outgoing number, each datagram with the port of the client behind the number. |
| `Channel.Cut` | mohpc-lib/Network/Remote/Channel.cpp:184-193 | The cut loop ends for every length and sends the fragments of the message's first length mod 65536 bytes, the last one shorter than the fragment size. |
| `Channel.ChunkAt` | mohpc-lib/Network/Remote/Channel.cpp:225-274 | The k-th fragment starts at k times the fragment size, and exactly the last one is short. |
| `Channel.ChunksTile` | mohpc-lib/Network/Remote/Channel.cpp:225-274 | The fragments tile the message for every length, exact multiples of the fragment size included. |
| `Channel.Reassembly` | mohpc-lib/Network/Remote/Channel.cpp:91-176 | Over every run of packets of sent messages with 16-bit numbers, lost, repeated or out of order: the kept fragments are a beginning of their message, every delivery is one whole message, and the last accepted number never falls. |
| `Channel.GetsThrough` | mohpc-lib/Network/Remote/Channel.cpp:106-173 | A message whose fragments all arrive in order is delivered, whatever repeated fragments of it, whole packets up to its number, which are accepted in between, and outdated packets arrive among them. |
| `Channel.OthersDisturb` | mohpc-lib/Network/Remote/Channel.cpp:106-173 | Any other packet of another 16-bit number does disturb: afterwards nothing of the message is kept, or its fragments are outdated. |
| `Channel.LossesCounted` | mohpc-lib/Network/Remote/Channel.cpp:117 | Over every run of whole packets in order, the lost packets told of and the packets received make up the numbers passed. |
| `Channel.RepeatCountsLosses` | mohpc-lib/Network/Remote/Channel.cpp:107-117 | When the last accepted whole packet arrives again, it is delivered again and 65535 packets count as lost. |
| `Channel.FragmentsDeliverExactlyWhen` | mohpc-lib/Network/Remote/Channel.cpp:113-131 | The fragments of a long message, received in order, deliver it if and only if its number fits in 16 bits. |
| `Channel.ServerDeliversExactlyWhen` | mohpc-lib/Network/Remote/Channel.cpp:178-335 | A receiver that skips the port, as a server does, and otherwise does as receive does, gets a message of transmit if and only if it is shorter than the fragment size: the header of a fragment holds the length of the message. |
| `Channel.HeadersDeliverNothing` | mohpc-lib/Network/Remote/Channel.cpp:225-274 | These headers let no long message through, whatever bytes stand behind them. |
| `Channel.OwnReceiverDelivers` | mohpc-lib/Network/Remote/Channel.cpp:56-176 | receive itself does not read the port: a short message arrives with the two bytes of the port in front, and of a long one nothing arrives, or an empty message when the port is 0. |
| `Channel.ClientReadBack` | mohpc-lib/Network/Remote/Channel.cpp:275-335 | Skipping the port and reading the header gives back the packet that transmit wrote; only a fragment of number 2^31 - 1 looks like no packet of the channel. |
| `Channel.ServerReadBack` | mohpc-lib/Network/Remote/Channel.cpp:70-104 | Reading gives back a packet as a server writes it, without a port. |
| `Channel.LowestFirst` | mohpc-lib/Network/Remote/Channel.cpp:70-104 | A number on the wire has its lowest byte first. |
| `Channel.PortMisread` | mohpc-lib/Network/Remote/Channel.cpp:70-104 | What receive reads of a datagram of transmit: the port becomes data, or the low half of the start with a length of 0. |
| `Channel.NeverFallsExactlyWhen` | mohpc-lib/Network/Remote/Channel.cpp:91-176 | Over every run of packets, genuine or not, the last accepted number never falls if and only if no packet passes all tests of receive with a number that does not fit in 16 bits and wraps below it. |
| `Channel.WrapReadmits` | mohpc-lib/Network/Remote/Channel.cpp:107-110 | A run in which it falls, after which the first number is accepted again. |
| `Channel.RepeatDelivers` | mohpc-lib/Network/Remote/Channel.cpp:107-168 | Only older numbers are discarded: a message whose fragments arrive twice is delivered twice. |
| `Geometry.PointLeafnum` | mohpc-lib/Utility/Collision/Collision.cpp:2666-2690 | The loop ends in the leaf of the point, by the recursive descent. |
| `LeafListing.BoxOnPlaneSide` | mohpc-lib/Utility/Collision/Collision.cpp:648-710 | The axial cases and all eight cases of sign bits give the sides of the farthest and the nearest corner. |
| `LeafListing.CornersBound` | mohpc-lib/Utility/Collision/Collision.cpp:665-701 | By the sign bits, the two corners are the farthest and the nearest point of the box along the normal. |
| `LeafListing.SidesMean` | mohpc-lib/Utility/Collision/Collision.cpp:648-710 | 1 means that no point of the half-open box is behind the plane, 2 that none is in front, and 3 that the closed box has points on both sides. |
| `LeafListing.LeafList.StoreLeafs` | mohpc-lib/Utility/Collision/Collision.cpp:2712-2727 | A leaf is stored while there is room; the flag and the last leaf inside the world are kept in any case. |
| `LeafListing.LeafList.BoxLeafnums` | mohpc-lib/Utility/Collision/Collision.cpp:2783-2809 | The loop with its recursive call stores exactly the leaves of the recursive description, in order. |
| `LeafListing.StoreAllKeeps` | mohpc-lib/Utility/Collision/Collision.cpp:2712-2727 | The list gets the first leaves that it has room for, and the flag tells exactly whether it lacks any. |
| `LeafListing.BoxLeafsCover` | mohpc-lib/Utility/Collision/Collision.cpp:2783-2809 | The leaf of every point of the half-open box is among the listed ones. |
| `LeafListing.TouchedLeafs` | mohpc-lib/Utility/Collision/Collision.cpp:2816-2833 | Without an overflow, the filled list holds the leaf of every point of the half-open box, for every well-founded tree. |
| `BrushTrace.EnterTells` | mohpc-lib/Utility/Collision/Collision.cpp:1324-1334 | Before the entering fraction of a side the sweep is more than the tolerance in front of it, from there on at most that; the fraction is in [0, 1). |
| `BrushTrace.LeaveTells` | mohpc-lib/Utility/Collision/Collision.cpp:1336-1344 | Behind the leaving fraction of a side the sweep is less than the tolerance inside it, up to there at least that. |
| `BrushTrace.ClippedClear` | mohpc-lib/Utility/Collision/Collision.cpp:1296-1362 | A sweep that misses a side, or that starts outside, is outside the brush shrunk by the tolerance up to where it enters, or all the way when it leaves before it enters. |
| `BrushTrace.ClippedTouches` | mohpc-lib/Utility/Collision/Collision.cpp:1362-1373 | Where the sweep enters the last side and has left none, it is within the tolerance of the brush, and exactly at the tolerance of the leading side unless that is at the start. |
| `BrushTrace.TraceWork.ClipSides` | mohpc-lib/Utility/Collision/Collision.cpp:1240-1346 | The loop over the sides finds whether one is missed, whether start and end are outside, and the last entering and first leaving fraction. |
| `BrushTrace.TraceWork.TraceThroughBrush` | mohpc-lib/Utility/Collision/Collision.cpp:1203-1373 | No tunnelling: unless the start is inside, every part of the sweep before the fraction is outside the brush shrunk by the tolerance. In terms of points: startsolid is newly set exactly when at the start every side has a point of the shape on or behind it, allsolid when at the end, too; a lowered fraction is where every side has a point of the shape within the tolerance and the nearest one is exactly at the tolerance of the recorded side, unless the fraction is 0. |
| `BrushTrace.OutsideMeans` | mohpc-lib/Utility/Collision/Collision.cpp:1306-1312 | Being outside by the adjusted distances means that no point of the swept box or capsule is in the shrunk brush. |
| `BrushTrace.ReachBounds` | mohpc-lib/Utility/Collision/Collision.cpp:1240-1312 | The adjusted distance of a plane is the position's when the nearest point of the box or capsule is on it, or nearer. |
| `BrushTrace.ReachTight` | mohpc-lib/Utility/Collision/Collision.cpp:1240-1312 | It is tight: a point of the shape has exactly that distance, for sizes that are not negative with matching sign bits, and for capsules with unit normals. |
| `BrushTrace.PassMeans` | mohpc-lib/Utility/Collision/Collision.cpp:1296-1312 | The adjusted distance is at most some bound if and only if a point of the shape is at most that far in front of the plane. |
| `BrushTrace.TracedMeans` | mohpc-lib/Utility/Collision/Collision.cpp:1203-1373 | What the fractions of the sides tell, restated in points of the shape. |
| `TreeTrace.CrossingCovers` | mohpc-lib/Utility/Collision/Collision.cpp:1903-1961 | At a node, every point of the shape is in the part of the stretch that its side gets, unless it is less than the tolerance behind the plane and the sweep comes from behind. |
| `TreeTrace.CrossingTight` | mohpc-lib/Utility/Collision/Collision.cpp:1903-1961 | The parts are no larger than that: each ends exactly where the position is off the plane by the margin and the tolerance, or short of the margin by it for a sweep from behind. |
| `TreeTrace.CoveredBoth` | mohpc-lib/Utility/Collision/Collision.cpp:1917-1961 | Visiting both parts of a stretch covers the leaves of all clear points of the shape below the node. |
| `TreeTrace.CoveredOneSide` | mohpc-lib/Utility/Collision/Collision.cpp:1893-1901 | So does visiting one side when both ends are far on it. |
| `TreeTrace.CollisionWorld.TraceToLeaf` | mohpc-lib/Utility/Collision/Collision.cpp:1473-1498 | Every brush of the leaf gets the current mark, unless the fraction is 0, and every marked brush that concerns the sweep is clear before the fraction, or the start is solid. |
| `TreeTrace.CollisionWorld.TraceThroughTree` | mohpc-lib/Utility/Collision/Collision.cpp:1855-1961 | Every clear point of the shape within the margins of the node planes, on the stretch and before the final fraction, has its leaf passed to TraceToLeaf. |
| `TreeTrace.NoTunnel` | mohpc-lib/Utility/Collision/Collision.cpp:1475-1498 | At the end, no such point is in the shrunk part of a brush of its leaf, unless the start is solid. |
| `TreeTrace.NothingTunnels` | mohpc-lib/Utility/Collision/Collision.cpp:1855-1961 | The same for a caller whose shape has room: no clear point of it tunnels. |
| `TreeTrace.BlamedMore` | mohpc-lib/Utility/Collision/Collision.cpp:1473-1498 | Testing one more brush that the mask concerns, a solid start and the fraction can still be laid to such a brush, which the shape is in or at. |
| `TreeTrace.BoxTrace` | mohpc-lib/Utility/Collision/Collision.cpp:1970-2106 | In terms of the arguments: the margin is half the size, or none for a point, and, for a caller whose shape has room, no clear point of the shape before the fraction is deep inside a brush of its leaf that the mask concerns, unless the start is solid. Only a brush that the mask concerns makes the start solid or stops the sweep, where the shape is at it. The end position follows. |
| `TreeTrace.RoomyReaches` | mohpc-lib/Utility/Collision/Collision.cpp:1882-1898 | Every point of a shape is within the margins when at every node plane the box around the shape reaches no further than the margin. |
| `TreeTrace.BoxReachesExactlyWhen` | mohpc-lib/Utility/Collision/Collision.cpp:1882-1898 | For a box this is the exact condition. |
| `TreeTrace.CallersRoom` | mohpc-lib/Utility/Collision/Collision.cpp:1882-1898 | What a caller can check: no node plane that is not axial is reached further than 2048, and a capsule's radius is not larger than the half size along y, which the source does not look at; points have room always. |
| `TreeTrace.CapsuleBeyond` | mohpc-lib/Utility/Collision/Collision.cpp:2003-2012 | A capsule that is wider than the margin of an axial plane has a point beyond it. |
| `Sha256.SHA256.Transform` | mohpc-lib/Utility/Misc/SHA256.cpp:113-153 | The state becomes the compression of section 6.2.2 of FIPS 180-4 of itself and the block. |
| `Sha256.ScheduleOf` | mohpc-lib/Utility/Misc/SHA256.cpp:118-121 | The two loops compute the message schedule. |
| `Sha256.AllRounds` | mohpc-lib/Utility/Misc/SHA256.cpp:132-143 | The loop computes the sixty-four rounds. |
| `Sha256.SHA256.Update` | mohpc-lib/Utility/Misc/SHA256.cpp:42-56 | The bytes are appended to the message that the state stands for. |
| `Sha256.SHA256.Finish` | mohpc-lib/Utility/Misc/SHA256.cpp:58-94 | The state becomes the hash value of the message with its padding, in one block or two. |
| `Sha256.PaddedHash` | mohpc-lib/Utility/Misc/SHA256.cpp:63-77 | The last block, or the last two, are the end of the message with the padding of section 5.1.1 of FIPS 180-4. |
| `Sha256.HexOf` | mohpc-lib/Utility/Misc/SHA256.cpp:96-111 | The words are copied with their highest byte first and written in hexadecimal digits. |
| `Sha256.DigestOf` | mohpc-lib/Utility/Misc/SHA256.cpp:28-111 | For every way of splitting a message into parts below 2^32 bytes, the result is the digest of the whole. |
| `Sha256.Sha256Of` | mohpc-lib/Utility/Misc/SHA256.cpp:17-26 | The same with the sixty-four constants of section 4.2.2. |
| `Sha256Bits.ChooseBit` | mohpc-lib/Utility/Misc/SHA256.cpp:10 | Each bit of the first word of Ch chooses between those of the two others. |
| `Sha256Bits.MajorityBit` | mohpc-lib/Utility/Misc/SHA256.cpp:11 | Each bit of Maj is the one that two of the three words have. |
| `Sha256Bits.BigSigma0Bit` | mohpc-lib/Utility/Misc/SHA256.cpp:12 | Each bit is the sum mod 2 of the three bits 2, 13 and 22 places above it, around the word. |
| `Sha256Bits.BigSigma1Bit` | mohpc-lib/Utility/Misc/SHA256.cpp:13 | The same with 6, 11 and 25 places. |
| `Sha256Bits.SmallSigma0Bit` | mohpc-lib/Utility/Misc/SHA256.cpp:14 | The same with 7 and 18 places, and 3 places above it if there are so many. |
| `Sha256Bits.SmallSigma1Bit` | mohpc-lib/Utility/Misc/SHA256.cpp:15 | The same with 17, 19 and 10 places. |
| `Sha256Bits.InitialRoots` | mohpc-lib/Utility/Misc/SHA256.cpp:28-40 | The initial hash value is the first 32 bits behind the point of the square roots of the first eight primes. |
| `Sha256Bits.RoundRoots0` | mohpc-lib/Utility/Misc/SHA256.cpp:17-26 | The constants are those of the cube roots of the first sixty-four primes: the first eight here, the others in RoundRoots1 to RoundRoots7. |
| `Sha256Bits.BigEndianBack` | mohpc-lib/Utility/Misc/SHA256.cpp:79-87 | The bytes that the length is written in stand for it, the highest first. |
| `Sha256Bits.WordIsValue` | mohpc-lib/Utility/Misc/SHA256.cpp:118-119 | Four bytes of a block are read as the word that they stand for. |
| `Info.Info.SetValueForKey` | mohpc-lib/Utility/Info.cpp:39-83 | The pair of the key is removed and a new one is written behind the others, in a larger buffer when needed; an empty key is ignored. |
| `Info.Info.RemoveKey` | mohpc-lib/Utility/Info.cpp:85-127 | The pair of the key is moved out of the buffer; the others stay in order. |
| `Info.FindKey` | mohpc-lib/Utility/Info.cpp:99-126 | The scan finds the place and the end of the key's pair, exactly when there is one. |
| `Info.ValueForKey` | mohpc-lib/Utility/Info.cpp:221-274 | A lookup finds the key's value, whether or not the size counts the terminator. |
| `Info.InfoIterator.ParseInfo` | mohpc-lib/Utility/Info.cpp:348-385 | One step of the iterator copies the next key and value and moves behind them, or ends. |
| `Info.Enumerate` | mohpc-lib/Utility/Info.cpp:306-396 | The iterator lists every pair once and in order; an emptied buffer is listed as one pair of empty strings. |
| `Info.PairsTell` | mohpc-lib/Utility/Info.cpp:39-127 | After any run of edits the keys are distinct, and a key has the value last set for it and not removed since. |
| `Info.EditAndRead` | mohpc-lib/Utility/Info.cpp:39-396 | The same through the buffer: after any run of edits, a lookup and the iterator read what was last set. |
| `Requests.ChainEnds` | mohpc-lib/Network/Client/ServerCommands.cpp:40-309 | Every chain ends after a bounded number of replies and timeouts that it takes, 19 for a whole connect. |
| `Requests.BoundIsReached` | mohpc-lib/Network/Client/ServerCommands.cpp:40-309 | The bound is the best one: for every stage some run is still going one input before it. |
| `Requests.SilenceEnds` | mohpc-lib/Network/Client/ServerCommands.cpp:104-112 | When only time runs out, the chain ends with the timeout call. |
| `Requests.ConnectDeserves` | mohpc-lib/Network/Client/ServerCommands.cpp:40-309 | For every run of a connect: it is answered only after a supported version, a challenge and the connect response in this order, fails only with a dropping error after the first two, tells of a time-out only after one, and ends without a call for four reasons only. |
| `Requests.HandshakeAnswers` | mohpc-lib/Network/Client/ServerCommands.cpp:40-309 | With the right replies it is answered, through the authorization or without it, however often its stages time out before within their retries. |
| `Requests.PrintsEnd` | mohpc-lib/Network/Client/ServerCommands.cpp:256-299 | The connect request takes five prints, retries after time-outs counted, and gives up without a call at the next one. |
| `Requests.IncomingMessageHandler.SendRequest` | mohpc-lib/Utility/RequestHandler.cpp:56-75 | A request begins at once when none is active and is queued otherwise. |
| `Requests.IncomingMessageHandler.Dequeue` | mohpc-lib/Utility/RequestHandler.cpp:131-145 | The pending requests begin in order, up to the first that must be processed. |
| `Requests.IncomingMessageHandler.HandleNewRequest` | mohpc-lib/Utility/RequestHandler.cpp:199-229 | A request stays, is followed in its chain, or ends; only at the end pending ones begin, in first-in first-out order, and each chain calls at most once. |
| `Requests.IncomingMessageHandler.HandleIncoming` | mohpc-lib/Utility/RequestHandler.cpp:32-54 | A reply that the active request supports does to the handler what it does to the chain: a request that stays gets its time again from now on, one that follows starts now; any other reply changes nothing. |
| `Requests.IncomingMessageHandler.ProcessTimeOut` | mohpc-lib/Utility/RequestHandler.cpp:231-246 | A timeout fires exactly when its time has come, and does to the handler what it does to the chain. |
| `Requests.IncomingMessageHandler.StartRequest` | mohpc-lib/Utility/RequestHandler.cpp:159-197 | The times of a request: deferred by its stage, and timing out so much later. |
| `EntityDelta.TableBack` | mohpc-lib/Network/Serializable/Entity.cpp:16-527 | Over a table whose weights and alphas have 8 bits, as in both tables of the source, every state comes back from its delta against the same other state: exactly the saved tokens are taken and every field has its expected value. |
| `EntityDelta.SavedBack` | mohpc-lib/Network/Serializable/Entity.cpp:328-527 | Over any table, if and only if no flagged weight or alpha is written with another width than the 8 bits that it is read with; such a mismatch is modelled as a failed read. |
| `EntityDelta.FieldBack` | mohpc-lib/Network/Serializable/EntityField.cpp:202-299 | One field is read back as its decoded value, if and only if it is read with the width it was written with; a regular float comes back exactly. |
| `EntityDelta.RegularExact` | mohpc-lib/Network/Serializable/EntityField.cpp:40-67 | For floats, and integers below the power of two of the field, a regular field is flagged exactly when it changed and comes back exactly. |
| `EntityDelta.RegularStateBack` | mohpc-lib/Network/Serializable/Entity.cpp:328-527 | A state of such fields comes back as it was, whatever state it was saved against. |
| `EntityDelta.PackedAlikeExactlyWhen` | mohpc-lib/Network/Serializable/EntityField.cpp:40-85 | A packed field is left out only when the old value packs like the new one, a coordinate or a velocity only when it is the new one; what is loaded packs like what was saved if and only if the field was left out or its value packs again as it did. |
| `EntityDelta.LoadedKeeps` | mohpc-lib/Network/Serializable/Entity.cpp:328-527 | Where values pack again as they did, the same tokens would be written of the loaded state as of the saved one, and the saved one differs from it, as a delta, in coordinates and velocities at most. |
| `EntityDelta.XorSumFits` | mohpc-lib/Network/Serializable/EntityField.cpp:49-62 | For values in range, the sum of the changed bytes does not reach the power of two that it is masked with. |
| `EntityDelta.Message.SaveDelta` | mohpc-lib/Network/Serializable/Entity.cpp:328-435 | The two loops write the tokens of the description. |
| `EntityDelta.Message.LoadDelta` | mohpc-lib/Network/Serializable/Entity.cpp:437-527 | The loop reads what the description reads, and fails where it fails. |
| `EntityDelta.Message.WriteNumberEntityField` | mohpc-lib/Network/Serializable/EntityField.cpp:244-299 | A regular field's tokens: nothing, a small integral float, a full float, or the low bits of an integer. |
| `EntityDelta.SaveAndLoad` | mohpc-lib/Network/Serializable/Entity.cpp:328-527 | The round trip through both loops. |
| `Reliable.ReliableSequence.AddCommand` | mohpc-lib/Network/Types/Reliable.cpp:16-29 | A command is accepted unless the gap is one more than the ring is long; the ring keeps the latest commands by their numbers. |
| `Reliable.ReliableSequence.GetSequence` | mohpc-lib/Network/Types/Reliable.cpp:41-44 | One of the latest numbers gives the command accepted under it. |
| `Reliable.ReliableSequence.UpdateAcknowledge` | mohpc-lib/Network/Types/Reliable.cpp:56-62 | Afterwards the gap is at most as large as the ring. |
| `Reliable.ReliableSequence.UnacknowledgedKept` | mohpc-lib/Network/Types/Reliable.cpp:16-44 | Every unacknowledged command is still there if and only if the gap is at most as large as the ring; with the one more that is allowed, the oldest was overwritten by the newest. |
| `Encoding.XORValues` | mohpc-lib/Network/Remote/Encoding.cpp:24-38 | Every byte from the reader's position on is xored with its key. |
| `Encoding.XORValuesInPlace` | mohpc-lib/Network/Remote/Encoding.cpp:40-55 | The same in place. |
| `Encoding.ConvertedTwice` | mohpc-lib/Network/Remote/Encoding.cpp:67-88 | Converting twice with the same keys from the same position gives the message back. |
| `Encoding.ConvertBoth` | mohpc-lib/Network/Remote/Encoding.cpp:24-88 | Through both loops: the in-place and the two-stream form leave the same bytes, and converting these again gives the message back. |
| `Encoding.KeyFollows` | mohpc-lib/Network/Remote/Encoding.cpp:10-38 | For every non-empty string, the key for a position is the one before it xored with the next character of the string, over and over again: '.' for '%' and for what is above 127, and doubled on odd positions. |
| `Encoding.IndexStaysExactlyWhen` | mohpc-lib/Network/Remote/Encoding.cpp:10-55 | The index into the command string never passes its terminator if and only if the string is not empty or at most one byte is converted. |

## Left out

- Keystream.Walk: does not go past leaf 65535, where the next step of encshare2 pops an empty stack; StreamCipher.Encrypt has the same bound on the words that it takes.
- Keystream tables of GameSpy's other levels (`Encrypt2.cpp`) and the framing around the cipher: the countdown loop in `Encrypt2.cpp:112` does not end, so that no round trip can be stated through it.
- Snapshot.GuardedPacket: asks for an old frame with entities; EmptyFramePacket is for the others. What is left when inserts reach an old entity before it is read is not stated. The sizes of the two rings are parameters; the masks of the source are remainders by them, as they are powers of two.
- ServerSnapshot.SnapshotManager.ParseSnapshot: message numbers do not fall and do not wrap; the parts of a snapshot besides its entities (player state, sounds, area masks), the counters of lost packets, and the growth of the snapshot's own fields from the message are not modelled.
- ServerSnapshot.SnapshotManager.SetNewSnap: a snapshot with a lower number than the current one, which would become the current one while later ones stay valid, is not modelled.
- ServerSnapshot.SnapshotManager.GetSnapshot: copies entities only; the other fields of the caller's snapshot are not modelled.
- Configstring.ConfigStringManager.Set: calls that would leave the buffers are not carried out but end in the outcome Overrun; the overload with a length other than the string's, move construction, the iterator and the environment text are not modelled.
- Channel.Netchan.Transmit: the outgoing number is below 2^31, where its highest bit does not yet look like the fragment bit. The bytes of a fragment are the message's at its place; `streamHelpers::Copy` (Stream.h, lines 71-84) takes its length for an end position, so that the fragments after the first get other bytes or none. HeadersDeliverNothing holds whatever they are.
- Channel.Netchan.Receive: for datagrams that are as long as the header that their number announces; addresses, the dispatcher, and a stream's bytes behind the message, of which only the number is given, are not modelled.
- Channel.OwnReceiverDelivers: from a state that keeps no fragments of the message's number.
- BrushTrace.TraceWork.TraceThroughBrush: numbers are real, so that rounding is not modelled; the two loops for boxes and capsules, which differ in the adjusted distance only, are one; fence brushes in point traces, which ask a mask of the texture, are excluded. What is said of points of the shape at a hit asks for sizes that are not negative and sign bits that match the normals, or unit normals for a capsule; otherwise it is said of the adjusted distances.
- TreeTrace.CollisionWorld.TraceToLeaf: brushes only; patches, terrain and their marks are not modelled.
- TreeTrace.BoxTrace: only for two different positions and the world's own tree; position tests, submodels and rotated models are not modelled. The counter of the marks does not wrap. Points just behind a node plane that the sweep comes to from behind are not covered, and for a shape that has no room, points beyond the margins are not.
- Sha256.SHA256.Update: parts are shorter than 2^32 bytes, as the loop's counter is 32 bits wide and would start again. Bytes and words are numbers; a conjunction of bits is a function over their halves.
- Info.Info.SetValueForKey: keys and values without a separator inside; the source writes such keys too, but can neither find nor remove them afterwards.
- Info.EditAndRead: for runs that set some value; an info string that was never set has no buffer for the readers to read.
- Info.ValueForKey: models ReadOnlyInfo; `Info::ValueForKey` (lines 129-159) compares the stored key's length only and is left out, like the conversions to numbers.
- Requests.IncomingMessageHandler.HandleIncoming: a reply is its command; the parsing of the packet, the sending and its deferral by processDeferred, the dispatcher, requests of other kinds, and callbacks that send a new request while theirs ends are not modelled.
- EntityDelta.SavedBack: the message is a list of tokens, in which a number read with another width than it was written with is a failed read, where the source reads on at another bit; the bit packing, the order of bytes, and the arithmetic of angles, times, weights, scales and coordinates, which are two arbitrary functions, are not modelled. Floats of the regular kind are real numbers. Negative widths (some angles and the bone tags) are not modelled.
- EntityDelta.Message.SaveDelta: the removed state, which is written with its number in front, and the kind simple, which no field of the tables has, are not modelled.
- EntityDelta.Message.LoadDelta: an exception is a failed result; the entity's number, which the caller sets, the kind simple, player states and user commands are not modelled.
- Reliable.ReliableSequence.AddCommand: numbers do not wrap at 2^32; the ring of remote commands in the same file is left out as the easier one.
- Encoding.XORValues: the bytes of the memory behind a string are given, and an index past all of them stays at the last.
- Sockets, threads, clocks, logging, files and the parsing of tokens are not part of the models; times are parameters.
