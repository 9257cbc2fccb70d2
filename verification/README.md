# whefs, verified

A Dafny model of the storage engine of `whefs`, an embedded filesystem that keeps
pseudofiles as linked chains of fixed-size blocks inside one flat container, together with
the parts around it that it stands on: the name cache, the pattern matcher, the container
format, fenced and record devices, the packed-value codec and the integer conversions of
its printf.

`dafny verify dfyconfig.toml` checks the whole project.

## How it is built

The storage engine has three levels.

* Values. `BlockStore` describes a container as block headers, block data and inode records,
  and states the storage invariant `Inv`: every inode's chain is a zero-terminated run of
  used blocks, chains are disjoint, a block is flagged used only if it is in a chain, and
  every free block and every chain byte past the end of its file is zero. `StoreSteps` proves
  what each step of the engine (extend, store, cut, clear, resize, append) keeps.
* The code. `Blocks`, `Storage`, `Nodedev`, `Opened` and `Session` are classes with the
  source's fields and methods: the block table with its bitset and search hint, opened
  inodes with their cached block lists, devices with cursors, the sorted list of opened
  inodes, and the whole open container: storage, list and names. Each method is proved
  against the values.
* The outside. `Calls` computes the answer and the effect of every call from what a client
  sees: byte strings, handles with cursors, names (`Naming`), and how many blocks each file
  holds out of how many there are. `Client.Client.Replay` proves that every lawful run of
  opens, closes, reads, writes, seeks, truncations, enlargements, creations, renames, lookups
  and deletions, over any number of handles, with the name cache switched on and off and the
  bitsets loaded at any time (which turns the name cache on), gives exactly these answers and
  ends in exactly this state, full containers included. `Quota` counts blocks, `Abstraction`
  ties the levels together, and `CallLaws` and `Naming` prove what follows for clients: pieces
  written one by one are the whole written at once, what was taken reads back, other files are
  left alone, a short write means a full container, a file is found by the name it was given
  last. `Answers` says what each answer means without the functions that compute it, and that
  the handles and inodes that are answered are those that later calls need; `FreshUse`, what a
  newly formatted container can be used for.

What a run must keep to be lawful is `Calls.Legal`. `Witnesses` reaches, by calls on a fresh
container, states in which the code goes wrong where that is not kept.

`Layout`, `Records` and `Format` tie the block records to the bytes: all records of a
container are disjoint, writing the bytes of one record is exactly the matching update of
the record model, a formatted image is exactly the blank container from which `Session`
starts, and opening a container, whatever was done to its records since, recovers what it was
formatted with, the hints that were stored in it and where everything is. `Reopening` puts
both sides together: after formatting and any lawful run that ends with nothing open, the
bytes of the container, opened again, show the very files, names and blocks that the run led
to (`Reopening.Live`).

`HashList` and `Catalog` are the name side: the hash cache, proved to change nothing about
what a plain scan of the name table finds. `Glob`, `Pack` with `Codec`, `Devices` and
`Printf` with `PrintfFields` are independent of the engine. What their tables of characters,
tags, widths and flags stand for is stated in literal characters and bytes. `Bytes` and `Arithmetic` hold what all share.

Names in the model: `Inode.list` and `Inode.count` are `blocks.list` (its length is
`blocks.alloced`) and `blocks.count`; `BlockTable.loaded`, `bits` and `hint` are
`bits.b_loaded`, `bits.b` and `hints.unused_block_start`; a writer key is the address of the
writing device, here its handle number. An inode's record is split: first block and size are
in `Storage`, flags and name in `Catalog`; `Records` has the whole of it.

## Where the code does not do what it says

The model follows the code. Each of these is stated as a theorem, with the exact condition,
and most with a run of calls that leads there.

* Truncating to 0 never wipes the chain, because it would do so only if reading the first
  block failed. The blocks stay flagged used and nothing owns them any more
  (`Nodedev.Dev.TruncZero`, `StoreSteps.ForgottenChain`, `Witnesses.ForgetBlocks`).
* Shrinking to a multiple of the block size clears the last block that is kept
  (`StoreSteps.ShrunkIsPrefix` says exactly when shrinking is the truncation it should be;
  `Witnesses.TruncationsGoWrong`).
* Shrinking inside the last block of a file of several blocks sets the cached block count to
  1, so that the cache no longer matches the chain (`Nodedev.Dev.KeepsCache` in the contract of
  `Nodedev.Dev.Trunc` is the exact condition under which it does; `Calls.Cuttable` states it,
  and the condition for length 0, in the client's terms, and `Abstraction.CuttableExact` that
  it is the same; `Witnesses.LoseCount`).
* A truncation that fails for lack of blocks has changed the size already, so that reads
  end before the file does (`Nodedev.Dev.Trunc`, `Calls.Readable`), and has taken every free
  block (`Calls.HeldByTruncate`), as a write cut short does (`Calls.HeldByWrite`). Its check
  for overflowing lengths never fires, so a length is silently taken modulo 2^32.
* The number of blocks that a position needs is computed in 16 bits
  (`BlockStore.CountFits`), and the cached list of one file cannot grow past 32768 entries,
  because its doubled size wraps to 0 and frees it (`Storage.GrowRequestFits`). A container
  may have more blocks than that; `Calls.Listable` says which calls stay clear of it.
* `open_count` is 16 bits wide and wraps (`Opened.CountWraps`).
* Emptying the name of an inode that has none fails when the cache still holds the empty
  name's hash for another inode (`Catalog.Catalog.NameSet`). Deleting such an inode stops
  half way: its blocks are wiped and free, and its record still leads to them
  (`Session.Container.Unlink`, `StoreSteps.WipedChain`, `Witnesses.LoseRecord`). It does not
  happen to an inode that has a name, or while the cache is off.
* Opening a name that is too long for writing leaves an inode marked used without a name, and
  so does the empty name (`Catalog.Catalog.Create`).
* A lookup that finds nothing returns the sign of the last string comparison as its result
  code, or a range error, depending on the last inode it looked at
  (`Catalog.Catalog.ByName`).
* Formatting accepts options whose container is larger than 32-bit offsets can address
  (`Layout.AcceptedTooLarge`), and enlarging a container does not check its new end. The code
  finds every record if and only if the end fits 32 bits (`Layout.PositionsRight`); past that,
  wiping a new block overwrites an old one (`Layout.EnlargedTooFar`, `Records.MisplacedHead`,
  `Witnesses.EnlargedOverFile`).
* In glob patterns a set that directly follows a run starting with `*` never matches
  (`Glob.SetAfterStarFails`); a backslash does not keep a bracket from opening a set and stays
  in force across it (`Glob.EscapedSetFails`); a backslash at the end of a pattern is ignored
  (`Glob.EscapeAtEndIgnored`). Nothing else goes wrong (`Glob.Matches`). A range whose ends
  are in the wrong order is not empty: its first end is in the set (`Glob.GlobSet`).
* A read from a fenced device whose end overflows 32 bits is not fenced
  (`Devices.SubDev.Read`, `Witnesses.ReadPastFence`); a write is (`Devices.SubDev.Write`).
  Without an upper bound nothing can be read or written at all, and neither while the
  cursor of the device behind it is at 2^32 - 1, which is taken for an error.
* The allocator's bitset is not filled when it is loaded, since reading a block updates it
  only once it counts as loaded (`Blocks.BlockTable.LoadCache`).

## Model

| member | source | states |
|---|---|---|
| Client.Client.Replay | src/whefs_nodedev.c:420-845 | any lawful run of calls on any number of handles, names included, is answered exactly as the model computes, and ends in exactly the state that it computes: which bytes were read, how many were taken, who was refused, which inode has which name, what every file holds and how many blocks it has |
| Client.Client.Do | src/whefs_nodedev.c:420-845 | one call has the answer and the effect of the model, in containers of up to 65534 blocks |
| Client.Client.Open | src/whefs_nodedev.c:945-987 | a device is opened unless the id is invalid, or it wants to write while another handle writes the same inode; nothing else is refused |
| Client.Client.Close | src/whefs_nodedev.c:868-894 | closing gives back one handle, flushes a writer and changes no file; other devices on the inode stay usable |
| Client.Client.Read | src/whefs_nodedev.c:521-537 | a read through a handle returns the bytes from its cursor to the end of the request, the file, or the blocks the file has, and moves only that cursor |
| Client.Client.Write | src/whefs_nodedev.c:604-618 | a write through a handle takes exactly as many bytes as its own and the free blocks have room for, and writes them at the cursor, to no other file |
| Client.Client.Seek | src/whefs_nodedev.c:646-674 | a seek moves that cursor to the place asked for, relative to start, cursor or end, or refuses |
| Client.Client.Truncate | src/whefs_nodedev.c:702-845 | a truncation grows the file with zeros, or shrinks it, or fails exactly when the blocks do not suffice, the size changed all the same; it takes or frees exactly the blocks the new size asks for |
| Client.Client.Unlink | src/whefs_inode.c:600-643 | an unlinked file is empty, unnamed and free, every other file and name is unchanged; refused while any handle is open on it |
| Client.Client.Create | src/whefs_file.c:123-150 | opening a name for writing finds its inode, or gives the name to the lowest free one, or fails as the model says |
| Client.Client.Rename | src/whefs_inode.c:107-173 | renaming changes that name alone, or is refused for an invalid id or a name that is too long |
| Client.Client.Lookup | src/whefs_inode.c:645-751 | a lookup answers as the plain table does, whatever is cached |
| Client.Client.SetCache | src/whefs_fs.c:1740-1769 | turning the name cache on or off, with or without loading it, changes nothing else that a client sees |
| Client.Client.LoadCaches | src/whefs_fs.c:1065-1153 | loading both bitsets turns the name cache on and changes which inodes later lookups skip, and nothing else that a client sees |
| Client.Client.AddBlocks | src/whefs_fs.c:1678-1730 | enlarging with whatever the grown file holds, to an end that fits 32 bits, changes no file |
| Client.Client.constructor | src/whefs_fs.c:1301-1348 | a container freshly formatted with accepted options that fit 32 bits shows empty unnamed files and no handles |
| Client.Client.SeenSane | src/whefs_block.c:359-413 | the files never hold more blocks than the container has |
| Client.Client.WrittenFits | src/whefs_nodedev.c:539-602 | a cursor that a write moved stays inside 32 bits when the container's data does |
| Answers.OpenAnswers | src/whefs_nodedev.c:945-987 | opening answers with a handle that was not in use, on that inode, at its start, and adds just that handle; or refuses with an argument error for an id that is none, with an access error for a second writer, and changes nothing |
| Answers.CloseAnswers | src/whefs_nodedev.c:868-894 | closing succeeds, takes that handle away and leaves every other as it is |
| Answers.WriteAnswers | src/whefs_nodedev.c:604-618 | the count that a write answers is the number of its bytes that are in the file afterwards, at the handle's place, with zeros in a gap before them; it is all that the file's own and the free blocks have room for |
| Answers.ReadAnswers | src/whefs_nodedev.c:521-537 | a read answers the file's bytes from the handle's place on, as many as asked for as far as file and blocks go, and moves the handle behind them |
| Answers.SeekAnswers | src/whefs_nodedev.c:646-674 | a seek answers the place where the handle is then, counted from start, cursor or end, or 2^32 - 1 if it stays |
| Answers.OpenWriteRead | src/whefs_nodedev.c:420-618 | in the run of opening, writing, seeking to the start and reading through the handle that opening answered, the bytes written come back |
| Answers.TruncateAnswers | src/whefs_nodedev.c:702-845 | an access error exactly through a handle that does not write; else the file has the length asked for, with a range error exactly if the container is too small for it, a full container exactly if the blocks of the file and the free ones are |
| Answers.TruncatedBytes | src/whefs_nodedev.c:732-845 | every byte of the truncated file: the old one, zero beyond the old end, and zero in a last block that is kept whole |
| Answers.UnlinkAnswers | src/whefs_inode.c:600-643 | an argument error exactly for an id that is none, an access error exactly if a handle is on it; else the inode is empty, nameless and free, and no other changes |
| Answers.AddBlocksAnswers | src/whefs_fs.c:1678-1730 | enlarging succeeds exactly if the container has more blocks afterwards, as many more as asked for; an argument error exactly for none |
| Answers.CacheAnswers | src/whefs_fs.c:1740-1769 | switching the cache and loading the bitsets always succeed and set just their switches |
| Answers.LookupAnswers | src/whefs_inode.c:645-751 | a lookup names an inode if and only if that inode, from id 2 on, has the name; each error code for exactly its names |
| Answers.OrderMeans | src/whefs_inode.c:710-731 | the sign that a failed lookup answers: which name comes first at the first place where they differ, or which ends there |
| Answers.CreateAnswers | src/whefs_file.c:123-150 | creating names an inode that has the name afterwards and is used: the one that had it, or the lowest free one; a full container exactly if none is free, a range error exactly for a long name |
| Answers.CreateLookup | src/whefs_file.c:123-150 | the run of creating a name and looking it up answers the same inode twice |
| Answers.RenameAnswers | src/whefs_inode.c:107-173 | renaming succeeds exactly for an inode and a name of allowed length, and changes that name alone |
| Abstraction.WroteState | src/whefs_nodedev.c:539-618 | what a device write does to blocks is, seen from outside, the model's write: bytes, count taken, blocks held |
| Abstraction.TruncatedState | src/whefs_nodedev.c:732-845 | the same for truncation, with its result code |
| Abstraction.ReadState | src/whefs_nodedev.c:420-537 | the same for reading |
| Abstraction.CuttableKeeps | src/whefs_nodedev.c:773-806 | the truncations a client may make keep the cached block list true, or fail |
| Abstraction.CuttableExact | src/whefs_nodedev.c:713-806 | and they are exactly the ones for which the device keeps it true, or which fail, or for length 0 have no chain to forget |
| Abstraction.TakenIs | src/whefs_nodedev.c:274-302 | how many bytes a write takes and how many blocks the chain has then follow from the free blocks alone |
| Quota.HeldIsUsed | src/whefs_block.c:359-413 | as many blocks are flagged used as the chains have together, so the container is full exactly when the chains have them all |
| Calls.SaneAfter | src/whefs_block.c:281-413 | no call of the model lets the files hold more blocks than there are |
| Calls.RootedRun | src/whefs_fs.c:1017-1018 | no run uses the id 0, which stands for no inode |
| CallLaws.WriteTwice | src/whefs_nodedev.c:604-618 | if one write of both pieces may be made, two writes in a row may, take the same bytes and reach the same state, however full the container |
| CallLaws.ReadTwice | src/whefs_nodedev.c:521-537 | two reads in a row return what one read of the sum returns |
| CallLaws.ReadBack | src/whefs_nodedev.c:420-618 | write, seek back, read: exactly the bytes taken come back |
| CallLaws.ShortMeansFull | src/whefs_nodedev.c:274-302 | a write cut short leaves no block free, unless the cursor is beyond what the container can ever hold |
| CallLaws.OthersUntouched | src/whefs_nodedev.c:539-602 | no call changes a byte or the blocks of a file it is not about |
| CallLaws.GrowShrink | src/whefs_nodedev.c:732-836 | growing a file and shrinking it back restores it if and only if it does not end with a block, or that block is zeros |
| Calls.CountsOpen | src/whefs_inode.c:437-539 | the list's reader counts and writer keys stay equal to the handles outstanding when one is opened |
| Calls.CountsClose | src/whefs_inode.c:541-597 | and when one is closed; a closing handle is always known to the list |
| Calls.OpenIsBusy | src/whefs_inode.c:605-612 | an inode is in the list exactly when some handle is open on it, and has a writer exactly when one writes |
| Naming.CreatedFound | src/whefs_file.c:123-150 | a file is found by the name it was created with, and every other name finds what it found |
| Naming.RenamedFound | src/whefs_inode.c:107-173 | after a rename the new name finds the inode, the old one nothing, every other name what it found |
| StoreSteps.InvariantConserves | src/whefs_block.c:281-345 | in every valid state chains are acyclic, repetition-free, zero-terminated and pairwise disjoint, and a block is flagged used if and only if it is in some chain |
| StoreSteps.ChainUnique | src/whefs_nodedev.c:137-170 | the headers and the first block determine the chain |
| StoreSteps.FollowIsIndex | src/whefs_nodedev.c:274-302 | following k links from the first block ends at entry k of the chain, so the jump into the cached list and the walk agree |
| StoreSteps.ChainFits | src/whefs_block.c:300-315 | a chain is shorter than the block table, so walks along links end |
| StoreSteps.ExtendKeeps | src/whefs_nodedev.c:69-117 | linking a free block to a chain keeps the invariant, every other file's records and bytes, and adds only zeros to the chain |
| StoreSteps.SpliceKeeps | src/whefs_nodedev.c:539-602 | storing inside one block of one chain keeps the invariant and every other file, zero tails included |
| StoreSteps.StoreIsWrite | src/whefs_nodedev.c:539-602 | storing bytes in a block and raising the size is a write to the file |
| StoreSteps.CutKeeps | src/whefs_nodedev.c:776-806 | cutting a chain and wiping the rest keeps the invariant, the kept bytes, and every other file |
| StoreSteps.ShrinkSteps | src/whefs_nodedev.c:776-806 | clearing, cutting and the new size together leave exactly the shrunk content and free exactly the dropped blocks |
| StoreSteps.ShrunkIsPrefix | src/whefs_nodedev.c:776 | shrinking yields the prefix if and only if the length is no multiple of the block size or the cleared block held zeros |
| StoreSteps.ShrunkFlat | src/whefs_nodedev.c:776-806 | the bytes of the chain after clearing and cutting read as the shrunk content, with a zero tail |
| StoreSteps.ResizeAfterGrowth | src/whefs_nodedev.c:732-757 | a size taken over after the chain grew exposes old bytes and zeros only |
| StoreSteps.ForgottenChain | src/whefs_nodedev.c:713-731 | a record that forgets its chain can be read as a valid container if and only if the chain was empty |
| StoreSteps.WipedChain | src/whefs_inode.c:613-628 | after a chain was wiped while its record still leads to it, the container can be read as a valid one if and only if the chain was empty |
| StoreSteps.AppendKeeps | src/whefs_fs.c:1678-1730 | appending wiped blocks keeps the invariant and every file |
| StoreSteps.BlankIsValid | src/whefs_fs.c:886-941 | the freshly formatted container satisfies the invariant |
| BlockStore.FlatSplice | src/whefs_nodedev.c:560-568 | overwriting inside block k of a chain overwrites the same bytes of the file and no others |
| BlockStore.FlatBlock | src/whefs_nodedev.c:473-486 | block k of a chain holds bytes k*bs to (k+1)*bs of the file |
| BlockStore.CountFits | src/whefs_nodedev.c:235-249 | the 16-bit block number is the true one exactly for positions below 65535 blocks |
| BlockStore.LastBlock | src/whefs_nodedev.c:776 | where a length ends within the block of its last byte |
| Bytes.WriteAtTwice | src/whefs_nodedev.c:604-618 | writing two pieces one after the other is writing them together, gaps and growth included |
| Blocks.BlockTable.NextFree | src/whefs_block.c:359-413 | returns the lowest free block, reports a full container exactly when no block is free, and keeps hint and bitset true |
| Blocks.BlockTable.Wipe | src/whefs_block.c:281-345 | a deep wipe frees and zeroes exactly the chain it is given, ends because the rest of the chain shrinks, and touches no other header or data |
| Blocks.BlockTable.WipeData | src/whefs_block.c:245-279 | zeroes a block's data from a position on, in buffer-sized pieces |
| Blocks.BlockTable.Flush | src/whefs_block.c:111-156 | stores one header and keeps hint and bitset true |
| Blocks.BlockTable.Read | src/whefs_block.c:186-243 | returns the stored header, or the empty block for an invalid id |
| Blocks.BlockTable.ReadNext | src/whefs_block.c:347-356 | follows one link; the end of a chain is a range error |
| Blocks.BlockTable.UpdateUsed | src/whefs_block.c:34-52 | the bitset follows the used flag only once it is loaded, and freeing lowers the hint |
| Blocks.BlockTable.LoadCache | src/whefs_fs.c:1105-1132 | loading leaves the bitset empty and true |
| Blocks.BlockTable.AppendBlocks | src/whefs_fs.c:1706-1726 | every new block is free, unlinked and zero, whatever was there, and the old ones are as they were |
| Storage.GrowRequestFits | src/whefs_nodedev.c:76-79 | doubling the list makes room exactly below 32768 entries |
| Storage.GrowthFits | src/whefs_nodedev.c:274-302 | a file within the limit on growth that lacks a block has room for another in its list, or no block is free |
| Storage.Fs.Reserve | src/whefs_nodedev.c:28-57 | a list grows to the size asked for and keeps its entries; size 0 frees it |
| Storage.Fs.Append | src/whefs_nodedev.c:69-117 | the entry is appended and linked in the list and on disk, unless the predecessor already leads elsewhere |
| Storage.Fs.LoadChain | src/whefs_nodedev.c:137-170 | loading caches exactly the chain that the links on disk make, and writes nothing |
| Storage.Fs.BlockForPos | src/whefs_nodedev.c:233-309 | maps a position to the block of the chain that holds it, extends by exactly the missing blocks when asked, and refuses with the right error otherwise; the cached list mirrors the chain afterwards |
| Storage.Fs.AddBlock | src/whefs_nodedev.c:283-296 | takes a free block into the chain, or reports a full container exactly when none is free |
| Storage.Fs.Expand | src/whefs_nodedev.c:274-302 | extends the chain up to the block asked for, or as far as blocks last |
| Storage.Fs.Store | src/whefs_nodedev.c:559-602 | bytes stored in the block of a position are a write to that file, and the size covers them |
| Storage.Fs.Fetch | src/whefs_nodedev.c:472-487 | bytes read from the block of a position are the file's bytes there |
| Storage.Fs.CutTail | src/whefs_nodedev.c:785-806 | the chain and its cached list end after the kept block, the rest is wiped; the error return for a missing cache entry is never taken |
| Storage.Fs.Shrink | src/whefs_nodedev.c:760-806 | the file is shrunk, exactly the dropped blocks are free, and the cache stays valid if and only if the kept block is the first or has a successor |
| Storage.Fs.InodeFlush | src/whefs_inode.c:224-248 | the inode's record on disk is what is in memory |
| Storage.Fs.constructor | src/whefs_fs.c:1301-1348 | a fresh container is valid with nothing in use |
| Nodedev.Dev.Read | src/whefs_nodedev.c:521-537 | returns the bytes from the cursor up to the request or the readable end, across any number of blocks, and changes no file |
| Nodedev.Dev.ReadImpl | src/whefs_nodedev.c:420-519 | one block's worth of a read; asks to go on exactly while there is more |
| Nodedev.Dev.Write | src/whefs_nodedev.c:604-618 | the k bytes taken were written at the cursor and nothing else changed; the chain has just the blocks for them, and a short count means that the next byte needs more than the container has, or more than are free, all of which are taken then |
| Nodedev.Dev.WriteImpl | src/whefs_nodedev.c:539-602 | one block's worth of a write |
| Nodedev.Dev.Seek | src/whefs_nodedev.c:646-674 | moves the cursor to the place asked for, modulo 2^32, or leaves it |
| Nodedev.Dev.Trunc | src/whefs_nodedev.c:702-845 | growing yields old bytes and zeros, shrinking the shrunk content, failing still sets the size; the cursor does not move; the exact condition under which the cached list survives |
| Nodedev.Dev.Fill | src/whefs_nodedev.c:808-835 | the loop that fills a grown file with zeros writes nothing, and the grown bytes are zero all the same |
| Nodedev.Dev.TruncZero | src/whefs_nodedev.c:713-731 | the record forgets the chain, and the state stays valid exactly when there was none |
| Opened.OpenedList.Find | src/whefs_inode.c:416-435 | the early-exit search finds a node if and only if the inode is open |
| Opened.OpenedList.SearchOpened | src/whefs_inode.c:416-435 | the same, with the error codes |
| Opened.OpenedList.Open | src/whefs_inode.c:437-539 | one shared node per inode; a second writer is refused, a repeat by the same writer is not counted; the list stays sorted and linked both ways |
| Opened.OpenedList.Insert | src/whefs_inode.c:507-534 | a new node goes to its place by id, both neighbours and the head follow |
| Opened.OpenedList.Close | src/whefs_inode.c:541-597 | gives back one handle; the node goes away exactly when the 16-bit count reaches zero |
| Opened.OpenedList.Unlink | src/whefs_inode.c:584-592 | unlinking a node relinks its neighbours and the head |
| Opened.CountWraps | src/whefs_inode.c:579-580 | the 16-bit handle count is the number of opens modulo 65536 |
| Session.Container.Open | src/whefs_inode.c:437-539 | opening reads the record, keeps storage and list in step, and writes nothing |
| Session.Container.Close | src/whefs_inode.c:541-597 | closing a writer puts its size and first block on disk; only that inode's record can change |
| Session.Container.Unlink | src/whefs_inode.c:600-643 | an open inode is refused untouched; otherwise its chain is wiped, then its name taken away, then its record cleared; the container is valid afterwards if and only if the name could be taken away or the chain was empty, and it could if the inode had a name or the cache is off |
| Witnesses.LoseRecord | src/whefs_inode.c:613-628 | a container with the smallest blocks that formatting accepts, on which deleting an unnamed inode with a block fails and leaves records that no longer make a valid container |
| Witnesses.TruncationsGoWrong | src/whefs_nodedev.c:773-806 | in a file of two such blocks, reached by two calls, truncating to 0 or into the second block is not lawful, and truncating to one block clears it |
| Witnesses.ForgetBlocks | src/whefs_nodedev.c:713-731 | there truncating to 0 succeeds and leaves records that no longer make a valid container |
| Witnesses.LoseCount | src/whefs_nodedev.c:773-806 | and truncating into the second block succeeds and leaves a cached list that is not the chain |
| Witnesses.EnlargedOverFile | src/whefs_fs.c:1678-1730 | accepted options and a number of new blocks that fits their ids, for which the header of a new block is written into the data of an old one |
| Witnesses.ReadPastFence | src/whio_dev_subdev.c:139-165 | a read whose end overflows returns six bytes through a fence with two left |
| Session.Container.LoadCaches | src/whefs_fs.c:1065-1153 | loading the bitsets keeps the container valid and turns the name cache on |
| Session.Container.AppendBlocks | src/whefs_fs.c:1678-1730 | the new blocks are free and zero, all records and contents are kept, as long as the end fits 32 bits |
| Files.WroteContents | src/whefs_nodedev.c:604-618 | a device write is a write to one of the byte strings |
| Files.PositionsFit | src/whefs_nodedev.c:233-249 | in a container with fewer than 2^32 data bytes no file position overflows |
| Files.UnlinkKeeps | src/whefs_inode.c:613-627 | wiping a chain and clearing the record keeps the invariant and every other file |
| HashList.HashIdList.Sort | src/whefs_hash.c:74-97 | ascending by hash, with exactly the live entries, dropping all wiped ones when some entry is live and no live one has hash 0 |
| HashList.HashIdList.IndexOf | src/whefs_hash.c:206-239 | the leftmost place of the hash, the same on a sorted list by bisection as by the linear scan |
| HashList.HashIdList.Add | src/whefs_hash.c:183-204 | appends, or refuses exactly at a full list that may not or cannot grow |
| HashList.HashIdList.Alloc | src/whefs_hash.c:99-153 | reserves room within the limit, or empties the list |
| HashList.HashIdList.WipeIndex | src/whefs_hash.c:248-255 | zeroes one entry and marks the list unsorted |
| HashList.LiveCounts | src/whefs_hash.c:80-94 | the live entries are those with an id, each as often as it was there |
| Catalog.Catalog.ByName | src/whefs_inode.c:645-751 | lookup through the cache gives the answer of the plain scan of the name table, down to the code returned when nothing is found |
| Catalog.Catalog.Walk | src/whefs_inode.c:691-731 | the walk from an inode on finds the first with the name, skipping only inodes that the bitset knows to be free; if there is none it returns what the last inode looked at made of the result code |
| Catalog.Catalog.NameSet | src/whefs_inode.c:107-173 | renames, keeps every cache entry right or visibly stale and names unique, and says for what reasons it refuses: for an invalid id, for a new name that is too long, and for an unnamed inode that is to have the empty name while the cache, which is on, has that name for another |
| Catalog.Catalog.NameGet | src/whefs_fs.c:710-773 | returns the name and caches it, without breaking the cache |
| Catalog.Catalog.HashCache | src/whefs_cache.c:147-195 | the name is cached afterwards, unless the cache is full or off or another inode has its hash; what was added is right and no duplicate |
| Catalog.Catalog.SearchNdx | src/whefs_cache.c:82-107 | finds a hash if and only if the cache, when on, has it |
| Catalog.Catalog.LoadNames | src/whefs_cache.c:15-73 | every name is cached afterwards, of all inodes that the bitset does not know to be free, unless the cache is full; the cache stays true |
| Catalog.Catalog.OnlyFull | src/whefs_cache.c:147-195 | with names that the hash tells apart, a cached name is missing only from a full cache |
| Catalog.Catalog.SetHashCache | src/whefs_fs.c:1740-1769 | turning the cache off empties it, turning it on leaves it as it is or loads every name; it stays true |
| Catalog.Catalog.NextFree | src/whefs_inode.c:343-401 | the lowest free inode from id 2 on, or full exactly when there is none; hint and bitset stay true |
| Catalog.Catalog.UpdateUsed | src/whefs_inode.c:89-104 | the inode bitset follows the used flag and freeing lowers the hint |
| Catalog.Catalog.LoadBits | src/whefs_fs.c:1065-1100 | the loaded bitset is exact |
| Catalog.Catalog.Create | src/whefs_file.c:123-150 | opening a name for writing finds it or gives it to the lowest free inode; a name that is too long, or empty, costs one; full exactly when none is free |
| Catalog.Catalog.Delete | src/whefs_inode.c:622-628 | deleting takes name and used flag away and keeps the cache true; it fails only for an unnamed inode while the cache is on, and changes nothing then |
| Catalog.RenameScan | src/whefs_inode.c:645-751 | after a rename the new name finds the inode, the old one nothing, and every other name what it found before |
| Catalog.RenameCached | src/whefs_inode.c:163-170 | rehashing the one entry of the old name keeps the cache true |
| Glob.PatternCompare | src/whglob.c:193-299 | for every pattern and string the code says yes exactly when the string matches what the code makes of the pattern (`Glob.Read`), escapes included |
| Glob.Matches | src/whglob.c:301-305 | the same for glob patterns; and if every escape has something to escape, exactly when the string matches by the documented rules and no set directly follows a run that starts with a star; in literal characters, which strings match a pattern without star, bracket and backslash, one with a single star, a single set, or an escaped character |
| Glob.ReadIsRules | src/whglob.c:166-191 | what the code makes of such a pattern matches what the pattern means, but for the sets that are given up on |
| Glob.MatchesLike | src/whglob.c:307-318 | LIKE, for all patterns and strings; in literal characters, a pattern without `%` matches exactly the strings of its length that agree place by place, `_` standing for any character, and one with a single `%` those that start and end so; without case, a capital and its small ASCII letter agree and nothing else |
| Glob.FixedMatch | src/whglob.c:193-299 | a pattern without runs matches exactly the strings of its length that agree with it place by place |
| Glob.OneStarMatch | src/whglob.c:210-247 | a pattern with one run matches exactly the strings that start with what is before it and end, without overlap, with what is behind it |
| Glob.GlobSet | src/whglob.c:252-283 | which one-character strings the sets `[c]`, `[^c]`, `[a-b]` and `[^a-b]` match, for all characters |
| Glob.MatchDivides | src/whglob.c:166-191 | matching means that the string divides into one part for each step of the pattern, as section 8.5 of SQL-92 defines LIKE |
| Glob.StarLit | src/whglob.c:231-247 | searching the next literal after a star loses no match |
| Glob.InSet | src/whglob.c:252-283 | set parsing and membership at once are parsing the set and then asking for membership |
| Glob.SetAfterStarFails | src/whglob.c:224-230 | the pattern `*[a]` matches `a` by the rules but not by the code |
| Glob.EscapedSetFails | src/whglob.c:252 | the pattern `\[a]` means the three characters `[a]`, but the code says yes to `a` |
| Glob.EscapeAtEndIgnored | src/whglob.c:284-286 | a pattern that ends with a backslash matches as if it did not |
| Codec.IntRoundTrip | src/whio_encode.c:20-282 | decoding an encoded integer gives it back, cut to its type; in range, unchanged |
| Codec.EncodedBytes | src/whio_encode.c:20-282 | the bytes of every integer type in numbers: its tag, then the value, highest byte first |
| Codec.DecodedIs | src/whio_encode.c:20-282 | bytes decode to a value if and only if the value is one of the type and encodes to them; otherwise a consistency error |
| Codec.NarrowMeans | src/whio_encode.c:20-282 | a value that does not fit its type is read back as one of the type's, a whole number of its ranges away |
| Codec.TagsDiffer | src/whio_encode.c:107-280 | tags tell all types apart except the two kinds of byte |
| Pack.PackRoundTrip | src/whio_encode.c:625-775 | unpacking what was packed with the same format succeeds exactly for 1 to 255 items and gives every value back as its type holds it |
| Pack.EncodePack | src/whio_encode.c:625-689 | writes tag, count and values (`Pack.OneItemBytes` has the bytes, `Pack.FieldsJoin` how items follow each other) and nothing beyond; the count only when the size came out as computed |
| Pack.DecodePack | src/whio_encode.c:702-775 | succeeds exactly when tag, count, every item's tag and the size agree with the format, and returns the items |
| Pack.CalcSize | src/whio_encode.c:582-613 | 3 bytes and 2, 3, 5 or 9 for each digit 1, 2, 4 or 8 in the format, and as many items as digits; 0 for a format that is empty or has another character |
| Pack.FormatSize | src/whio_encode.c:582-613 | the items that a format asks for, and the room they take, counted by the digits in it |
| Pack.OneItemBytes | src/whio_encode.c:625-689 | the bytes to which each format of one item packs a value |
| Pack.FieldsJoin | src/whio_encode.c:644-675 | the items of a format are those of its first part, then those of the rest, a sign at the end of the first part included |
| Layout.CalculatedSizeIsEof | src/whefs_fs.c:863-878 | the size computed from the options is where the offset table ends |
| Layout.InitSizes | src/whefs_fs.c:1159-1213 | the offset table is cut to 32 bits, and is right when the container fits 32 bits |
| Layout.AcceptedTooLarge | src/whefs_fs.c:863-878 | options that formatting accepts and that do not fit |
| Layout.PositionsRight | src/whefs_block.c:21-32 | the 32-bit positions at which the code looks for records are right for all of them if and only if the end of the container fits 32 bits |
| Layout.EnlargedTooFar | src/whefs_fs.c:1678-1730 | enlarging an accepted container that fits, within the number of blocks that ids allow, puts the header of the last block into the data of the first |
| Layout.RecordsDisjoint | src/whefs_block.c:21-75 | any two different records of a container (header, names, inodes, block headers, block data) are disjoint |
| Layout.InRegion | src/whefs_inode.c:190-201 | every record lies inside its region, and the regions follow each other to the end |
| Records.PutIsLocal | src/whefs_fs.c:408-440 | writing inside one record writes there and changes no other record |
| Records.FlushIsHeadUpdate | src/whefs_block.c:111-156 | the bytes of a block flush are the update of that header in the record model |
| Records.DataWriteIsDataUpdate | src/whefs_block.c:245-279 | bytes written in a block are the update of its data, and change no name |
| Records.MisplacedHead | src/whefs_fs.c:1720-1726 | wiping a new block at a position that wrapped overwrites just those bytes of an old block |
| Records.FlushIsNodeUpdate | src/whefs_inode.c:224-248 | the bytes of an inode flush are the update of that inode |
| Records.NameWriteIsNameUpdate | src/whefs_fs.c:775-833 | writing a name changes that name alone |
| Records.BlockRoundTrip | src/whefs_block.c:144-182 | a block's metadata reads back |
| Records.NodeRoundTrip | src/whefs_inode.c:753-805 | an inode reads back |
| Records.NameRoundTrip | src/whefs_fs.c:710-833 | a name reads back |
| Records.BlockSpelled | src/whefs_block.c:109-156 | the header of a block, byte by byte |
| Records.NodeSpelled | src/whefs_inode.c:753-772 | the record of an inode, byte by byte |
| Records.NameSpelled | src/whefs_fs.c:775-833 | the record of a name, byte by byte, zeros behind it |
| Format.MkFs | src/whefs_fs.c:1246-1348 | refuses exactly options with fewer than two inodes, blocks of fewer than 32 bytes, no or more than 128 characters to a name, no cookie, or fewer blocks than inodes, and leaves the device alone then; others, of a container that fits 32 bits, turn it into exactly the image of an empty container, whatever was there |
| FreshUse.ByteForEach | src/whefs_fs.c:1246-1260 | in a fresh container every inode can be given a byte, by a run of opens, writes and closes, if and only if it has as many blocks as inodes |
| FreshUse.NameForOne | src/whefs_fs.c:1246-1260 | a file can be given a name if and only if there are two inodes and names may have a character |
| FreshUse.AcceptedIsOfUse | src/whefs_fs.c:1246-1260 | whatever options formatting accepts, every inode can be given a byte and a file a name |
| Format.HeaderSpelled | src/whefs_fs.c:570-624 | the header, byte by byte |
| Format.ImageIsBlank | src/whefs_fs.c:842-941 | that image, read as records, is the blank container: free zero blocks, empty inodes, no names |
| Format.OpenFs | src/whefs_fs.c:1442-1534 | opening a container that was formatted, whatever was written to its records and hints since, recovers block size, counts, name length, cookie length, hints and offset table; anything opened has the magic numbers and its own length on record |
| Reopening.Live | src/whefs_fs.c:502-558 | formatting, any lawful run that ends with nothing open, closing and opening again: the run is answered as the model computes, and what is opened shows exactly the state that it led to |
| Reopening.Reopen | src/whefs_fs.c:502-558 | closing a container in which nothing is open and opening it again loses no file, block or name |
| Reopening.Open | src/whefs_fs.c:1442-1534 | any bytes that hold the records, names, flags and hints of such a container open to one that shows the same |
| Reopening.ReadSensible | src/whefs_fs.c:1442-1534 | what is read back satisfies the storage invariant and holds the same contents, without the client's cookie |
| Reopening.SavedHolds | src/whefs_fs.c:594-624 | everything that a container at rest has to store fits its fields and can be read back |
| Reopening.ImageHolds | src/whefs_fs.c:842-941 | a formatted image holds the blank container, with the search hints 2 and 1 |
| Format.WriteHints | src/whefs_fs.c:594-624 | storing the hints of an open container keeps it one that opens, with these hints, and changes no other record |
| Format.RecordsKeepFormat | src/whefs_fs.c:408-440 | whatever is written to the names, inodes and blocks of a container, it stays one that opens as before |
| Format.CheckMagic | src/whefs_fs.c:1451-1502 | accepts exactly the containers with the magic numbers and the right recorded size |
| Format.AppendKeepsPlaces | src/whefs_fs.c:1698-1712 | more blocks move no record, and the new end is what the new options ask for |
| Format.AppendKeepsRecords | src/whefs_fs.c:1698-1726 | every record reads as before in the enlarged container |
| Devices.Membuf.Read | src/whio_dev_mem.c:145-164 | returns what is in use from the cursor on |
| Devices.Membuf.Write | src/whio_dev_mem.c:166-217 | writes what fits a fixed buffer, nothing when the end overflows; says how much is in use afterwards |
| Devices.SubDev.Read | src/whio_dev_subdev.c:139-165 | reads stay inside the fence and what is in use, unless the end of the read overflows, and the parent's cursor is put back; nothing is read while that cursor is 2^32 - 1 |
| Devices.SubDev.Write | src/whio_dev_subdev.c:167-193 | no byte of the parent outside the fence ever changes, and as much is written as fence and parent have room for, nothing while the parent's cursor is 2^32 - 1 |
| Devices.SubDev.SeekSet | src/whio_dev_subdev.c:220-267 | seeking is relative to the fence, in 32 bits |
| Devices.BlockDev.Write | src/whio_dev.c:457-473 | the device is an array of records: writing one changes that one alone, and no byte outside the fence |
| Devices.BlockDev.Read | src/whio_dev.c:475-482 | reading a record returns what was last written to it |
| Devices.BlockDev.Wipe | src/whio_dev.c:433-436 | wiping stores the prototype |
| Printf.FieldReadsBack | src/whprintf.c:955-1021 | every field, under all flags, widths and precisions, for every 64-bit value, reads back as the value (section 7.19.6.1 of ISO C99) |
| Printf.Convert | src/whprintf.c:955-1021 | all stores stay inside the 350-byte buffer, which ends up holding mark, sign, zeros, digits and ending |
| Printf.Format | src/whprintf.c:1255-1280 | the emitted field is the converted number padded to the width on the proper side |
| Printf.DigitsRead | src/whprintf.c:1000-1006 | the digits of a number read back as the number, in any base up to 16 |
| Printf.FewDigits | src/whprintf.c:864-866 | a number below 8^n has at most n digits in base 8 or more |
| PrintfFields.SignShown | src/whprintf.c:966-974 | a minus exactly for a negative value, a plus exactly for another with the plus flag, each right before the digits; the blank flag without plus puts one blank there |
| PrintfFields.OrdinalShown | src/whprintf.c:986-995 | an ordinal ends with the ending that English gives it, 11th, 12th and 13th included |
| PrintfFields.PaddingShown | src/whprintf.c:1255-1280 | a field is at least as wide as asked for, up to 340, filled with blanks on its left, or its right with the minus flag or a negative width, and not at all once it is wide enough |
| PrintfFields.ZerosShown | src/whprintf.c:982-984 | with the zero flag a decimal field has no blank but a sign |
| PrintfFields.PrecisionShown | src/whprintf.c:1007-1010 | the precision is the least number of characters of an unsigned field, up to 310; zeros in front make it up |
| PrintfFields.MarkShown | src/whprintf.c:981-1019 | the case of hexadecimal digits, and 0x, 0X or 0 in front exactly with the alternate flag and a number that is not zero |
| PrintfFields.BaseShown | src/whprintf.c:955-1021 | a field reads back in base 10, 8 or 16, as its letter says |

## Left out

- Nodedev.Dev.Read: positions and sizes are unbounded integers; `Files.PositionsFit` and `Client.Client.WrittenFits` show that they stay below 2^32 in a container whose end does, so the 32-bit wrap of the source does not arise there. Requires the cursor's block number to fit 16 bits, as writing does.
- Nodedev.Dev.Write: requires the cursor's block number to fit 16 bits, beyond which the source maps the wrong block (`BlockStore.CountFits`).
- Storage.Fs.BlockForPos: requires the same of the position, and that the file does not grow past 32768 blocks, beyond which the source frees the list and writes through it.
- Storage.Fs.AddBlock: requires a list with fewer than 32768 entries, or no free block, for the same reason.
- Storage.Fs.Expand: requires that the file does not grow past 32768 blocks, for the same reason.
- Storage.Fs.Append: requires a list with fewer than 32768 entries, for the same reason.
- Nodedev.Dev.Trunc: requires the block number of the length to fit 16 bits, and that the length is no positive multiple of 2^32.
- Session.Container.AppendBlocks: requires the new end to fit 32 bits, which the source does not check; `Layout.EnlargedTooFar` shows what happens otherwise.
- Session.Container.Open: requires fewer than 65535 handles on one inode, beyond which the count wraps (`Opened.CountWraps`).
- Opened.OpenedList.Close: requires that the caller has a handle to give back.
- Catalog.Catalog.NameSet: requires that only inodes marked used get a name, and no name twice, which the source leaves to its callers.
- Format.MkFs: requires that the container fits 32 bits; what a wrapped offset table overwrites is not modelled.
- Client.Client.Replay: covers the lawful runs (`Calls.Legal`), which leave out truncations after which the cached block list or the invariant no longer holds (`Calls.Cuttable`), cursors beyond 32 bits or 16-bit block numbers, files of more than 32768 blocks (`Calls.Listable`), containers that outgrow 32 bits, more than 65534 handles on one inode, names that the hash does not tell apart, deleting an unnamed inode while the name cache is on, and creating an inode that a handle is open on already, whose flags in memory are not modelled.
- Printf.Format: starts from a parsed width, precision and flags; the format string's own parsing is not modelled.
- Reopening.Live: names are C strings of 8-bit characters, and nothing is open at the end of the run; handles that are still open when a container is closed are closed by the source then, which is not modelled.
- Containers of 65535 blocks or inodes, over which the loops on 16-bit ids do not end.
- Modification times, the read-only mode of a container, locking, memory-mapped access and the debug output.
- Failing memory allocation, failing or short I/O on the container's own device, and the static allocation pools.
- The `hits` counters of the name cache and the least-visited shaving that uses them.
- The hash function itself: name lookups are proved for every hash that tells the names in use apart.
- UTF-8 decoding in the pattern matcher: it works on code points here.
- Growing memory buffers and their truncation; other devices, streams, compression, and everything under `app/`.
- The list of devices to close with a container, which repeats the opened-inode list; floating point, string, HTML, URL and SQL conversions of printf.
- Reading a directory (`whefs_ls`, `whefs_fs_entry_foreach`), file statistics and the `FILE`-like layer above the device.
