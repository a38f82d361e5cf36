# Inferno: big numbers, storage, and the protocols of the emulator

A Dafny model of the parts of Inferno's hosted emulator whose correctness spans many functions or many
processes. C functions that change memory are methods over arrays or classes with the original's fields;
each is proved against a value, a set, a map or a state, and the lemmas say what that value means over
every input, run or interleaving.

- **Big numbers** (`crypt/`). `Words`, `Kernels` and `Squaring` hold the 32-bit carry kernels, where every
  wrap-around is written out. `Karatsuba` recurses in place over a result and a scratch region. `BigInts`,
  `Multiply`, `Additive`, `Shifts`, `Division` and `Reduction` are the signed numbers with length and buffer.
  `Montgomery`, `ModPow` and `Brickell` raise powers; `Congruence` and `NumberTheory` supply Fermat's theorem;
  `Rsa` and `Primality` use all of it. The value of n words is `Val`, a number's magnitude is `Mag`.
- **Tiny file system** (`emu/devtinyfs.c`). `TinyFsBlocks` says which files a medium holds: `Files(m)`
  follows directory blocks and chains of the raw blocks. `TinyFsState` relates the bitmap and the file table
  to the medium, `TinyFs` has the operations with a history of every state the medium passes through,
  `TinyFsOrbit` follows links round cycles, and `TinyFsMount` rebuilds table and bitmap from any medium.
- **Pool allocator** (`emu/alloc.c`). `PoolTree`, `PoolInsert` and `PoolRemove` are the free tree with its
  rings of equal sizes, on linked headers; `PoolArena` tiles chunks with blocks; `PoolState` joins the two;
  `Pools` (Pool.dfy) has the methods.
- **The interpreter token** (`emu/dis.c`). `Scheduler` is the state machine of every interleaving and its
  invariants; `Interp` has the critical sections on the linked queue, each equal to a step.
- **The mount multiplexer** (`emu/devmnt.c`). `Mux` is the state machine and its invariants; `Mount` has the
  critical sections as methods, each equal to a step.
- **Styx messages** (`emu/styx.c`, `emu/devmnt.c`). `Styx` encodes and decodes; `Stream` cuts messages out
  of a byte stream that arrives in pieces.
- **Flow-controlled queues** (`emu/qio.c`). `Flow` is the state machine; `Qio` has the linked blocks.
- **Name spaces** (`emu/main.c`, `emu/devprog.c`). `Namespace` copies and scans mount tables.

A state machine has one step for what a process does under the source's own lock, or between two points
where another process can get in; a run is any sequence of such steps, of any number of processes.

## Model

| member | source | states |
|---|---|---|
| Kernels.LMult | crypt/longmult.c:33-59 | The destination words with the carry above them gain exactly m times the source words; no word outside changes. |
| Kernels.BigMultN | crypt/coremult.c:23-44 | The 2n words hold the product of two n-word numbers; nothing outside them changes. |
| Squaring.BuildDiag | crypt/longmult.c:62-77 | The 2n words hold the sum of the squares of the words, each at its place. |
| Squaring.SquareInnerLoop | crypt/longmult.c:81-112 | One pass adds twice m times the words from start to end; the last carry dies inside the room the caller has. |
| Squaring.DoubleWords | crypt/longmult.c:81-112 | Doubling a product and adding it to two words and a carry of at most two leaves again a carry of at most two, with no bit lost to wrap-around. |
| Squaring.BigSquareN | crypt/coremult.c:47-69 | The 2n words hold the square of the n-word number; nothing outside them changes. |
| BigInts.NumtypeBigmult | crypt/coremult.c:72-113 | c gains a times a word, moved up by offset words, and is trimmed, with the words from its new length up to the end of a's words zero; the buffer grows exactly when too small. |
| BigInts.Compare | crypt/bigCompare.c:11-32 | Both operands are trimmed without changing value; the sign of the answer is the order of the magnitudes. |
| BigInts.Copy | crypt/bigCopy.c:11-41 | The copy has the same words, length and sign, in its own buffer. |
| BigInts.Trim | crypt/bignum.c:250-254 | The value stays, the length shrinks to the last nonzero word or one, and the words left behind are zero. |
| BigInts.LBigMult | crypt/bigmath.c:277-298 | Schoolbook multiplication of any two lengths, with the sign rule and a positive zero. |
| Karatsuba.CompareLongs | crypt/fastmult.c:79-97 | The answer orders two n-word numbers by value. |
| Karatsuba.AbsDiff | crypt/fastmult.c:135-153 | A half's difference is written as a magnitude, and the answer tells its sign. |
| Karatsuba.KaratsubaProduct | crypt/fastmult.c:116-180 | The signed middle term is never negative, and the three products joined are the whole product, which fits 2n words. |
| Karatsuba.Combine | crypt/fastmult.c:159-178 | In place, the low and high products with the middle term added at the half; the last carry loop absorbs the carry before the end. |
| Karatsuba.RecursiveMultiply | crypt/fastmult.c:116-180 | For every n = cutoff times 2^k the 2n words of c hold the product; only c's and t's own regions change, even when c and t are one array. |
| Karatsuba.RecursiveSquare | crypt/fastmult.c:199-243 | The same for the square. |
| Multiply.GetRecurseLen | crypt/fastmult.c:58-71 | The greatest power of two that is not above the length. |
| Multiply.RecurseLenDoubles | crypt/fastmult.c:301-307 | That length is the cutoff doubled a whole number of times, so the recursion bottoms out exactly at the cutoff. |
| Multiply.CleanMult | crypt/fastmult.c:247-281 | From the product of two leading parts to the product of the whole numbers, of different lengths. |
| Multiply.FastMult | crypt/fastmult.c:286-317 | The product for all lengths and any power-of-two cutoff: the same value schoolbook multiplication has. |
| Multiply.CleanSquare | crypt/fastmult.c:320-352 | From the square of the leading part to the square of the whole. |
| Multiply.FastSquare | crypt/fastmult.c:355-380 | The square for all lengths. |
| Multiply.BigSquare | crypt/bigmath.c:301-313 | The square by the squaring kernel. |
| Multiply.BigMultiply | crypt/fastmult.c:385-396 | Whichever of the two ways is taken, the signed value is the product of the signed values. |
| Additive.BigAddition | crypt/bigmath.c:23-96 | The sum of the magnitudes, with c allowed to be either operand. |
| Additive.BigSub | crypt/bigmath.c:111-179 | The difference, and when c is a and a borrow is lost, the difference plus 2^(32(length of b + 1)), exactly. |
| Additive.InPlaceFailure | crypt/bigmath.c:105-108 | The condition of the loss holds of 2^64 and 1, and the value it leads to is wrong. |
| Additive.LostBorrow | crypt/bigmath.c:105-108 | BigSub called on 2^64 and 1, in place, leaves 2^65 - 1. |
| Additive.LossIs | crypt/bigmath.c:105-108 | On a trimmed number the lost borrow is decided by the two values and the shorter length alone. |
| Additive.LossNear | crypt/bigmath.c:111-179 | Lengths that differ by at most one word lose nothing, which is why REDC and bigMod are safe in place. |
| Additive.BigSubtract | crypt/bigSubtract.c:12-53 | The signed difference in all four sign cases, plus the lost borrow where there is one. |
| Additive.BigAdd | crypt/bigAdd.c:12-38 | The signed sum in all four sign cases, plus the lost borrow where there is one. |
| Shifts.BitsLeft | crypt/bigLeftShift.c:19-59 | Up to 31 bits left multiplies by 2^n; operand and result may be one. |
| Shifts.BigLeftShift | crypt/bigLeftShift.c:62-83 | In place, for every count up to 31. |
| Shifts.BitsRight | crypt/bigRightShift.c:20-57 | Up to 31 bits right divides by 2^n, rounding down. |
| Shifts.BigRightShift | crypt/bigRightShift.c:60-69 | Counts below a word, and whole words: the floor of the division, with the sign of a result of no words. |
| Shifts.Msb | crypt/bignum.c:81-107 | The number of bits a word needs. |
| Division.LongBigDivide | crypt/longBigDivide.c:22-114 | For a divisor with its top bit set: the floor when the dividend is below divisor times 2^32, the greatest word when it equals it, and beyond, the floor once that multiple is taken off. |
| Reduction.TrialDigitClose | crypt/bigMod.c:81-110 | The trial digit after the three-word test is at most one too large and never too small, so one add-back is enough. |
| Reduction.DigitStep | crypt/bigMod.c:81-110 | One digit leaves the remainder below the divisor, except for the one input that leaves the divisor itself. |
| Reduction.ModResultIs | crypt/bigMod.c:78-110 | What bigMod answers is at most m and congruent to a, and is m exactly on m moved up by whole words. |
| Reduction.BigMod | crypt/bigMod.c:21-120 | For every modulus of two words or more: the answer is that residue, with a's sign, and the modulus is as before, word for word. |
| Montgomery.InverseStep | crypt/bigPow.c:21-41 | One doubling of the precision: either y stays an inverse or y plus the old power of two is one. |
| Montgomery.ModInverse | crypt/bigPow.c:21-41 | For odd x, x times the answer is -1 modulo 2^32. |
| Montgomery.RedcQuotient | crypt/bigPow.c:80-109 | Below N times R the quotient stays under 2N, is congruent to T over R with or without one N, and is zero only for zero. |
| Montgomery.Redc | crypt/bigPow.c:80-109 | For T below N times R: a number at most N (the compare is strict), congruent to T over R, positive for positive T, and N itself exactly for the positive multiples of N. |
| ModPow.ResForm | crypt/bigPow.c:56-74 | The base times R, reduced; for a base from one to N it is not zero. |
| ModPow.FormOf | crypt/bigPow.c:56-74 | Which number the reduced form stands for: the base itself, or zero when the form is zero. |
| ModPow.ExpAboveIsVal | crypt/bigPow.c:207-239 | The nibbles read from the top are the exponent's value. |
| ModPow.BuildAddChainTable | crypt/bigPow.c:112-132 | Entries 1 to 15 stand for the powers 1 to 15, and share no memory. |
| ModPow.OddPow | crypt/bigPow.c:189-245 | For every odd N of two or more words and every exponent: congruent to the power, at most N, below N for a unit, and not zero for a base from one to N. |
| ModPow.BigPow | crypt/bigPow.c:336-368 | The same for a base of any size and in place; the answer is zero exactly when the reduced base is. |
| ModPow.PowerIsModulus | crypt/bigPow.c:189-245 | A result that is not zero is N itself exactly when N divides the power. |
| Brickell.G16BigPow | crypt/brickell_bigpow.c:14-57 | Entry i stands for the base to the 16^i, for as many entries as asked. |
| Brickell.BuildCoeffTable | crypt/brickell_bigpow.c:60-98 | Entry j stands for the product of the table at the places whose nibble is j. |
| Brickell.RowsAdd | crypt/brickell_bigpow.c:116-124 | How the two running products grow from one digit to the next. |
| Brickell.RowEnds | crypt/brickell_bigpow.c:113-124 | The running products start empty and end at the exponent the table can see: the product of C[j]^j. |
| Brickell.BrickellBigPow | crypt/brickell_bigpow.c:101-131 | The base to the number that as many nibbles of the exponent's buffer denote as the table has entries. |
| Brickell.ExactExponent | crypt/brickell_bigpow.c:60-98 | That number is the exponent exactly when the nibbles between the table's end and the number's end are zero. |
| Brickell.SamePower | crypt/brickell_bigpow.c:101-131 | The answer agrees with bigpow's modulo N, and is equal to it for a unit. |
| NumberTheory.Fermat | crypt/rsa.c:260-284 | What raising modulo each prime rests on: Fermat's little theorem, from the binomial theorem. |
| NumberTheory.FermatRoundTrip | crypt/rsa.c:260-284 | What the reduced exponents rest on: raising to 1 plus a multiple of p - 1 changes nothing modulo p, zero included. |
| NumberTheory.SquareRootOfOne | crypt/primes.c:131-143 | Why the squaring loop may look for minus one only: modulo a prime only one and minus one have the square one. |
| Primality.WalkBack | crypt/primes.c:126-143 | From a one at the end of the squarings back to minus one, or to one at the start. |
| Primality.PrimesPass | crypt/primes.c:104-145 | Every base from 1 to n - 1 finds a prime n probably prime. |
| Primality.StrongIsFermat | crypt/primes.c:104-145 | A number found probably prime to a base meets Fermat's congruence for it, so every other composite is refused. |
| Primality.ProbPrimeTest | crypt/primes.c:104-145 | For odd n the answer is yes exactly for a strong probable prime to the base; a prime is never rejected, and a yes means that x^(n-1) is 1 modulo n. |
| Rsa.Negate | crypt/negate.c:12-35 | At most p and congruent to minus a modulo p. |
| Rsa.CrtCombine | crypt/crtCombine.c:12-36 | The result, as one number and not only modulo pq: the sum a + c12(b - a)p with its lost borrows, and where that is negative, what negating it modulo pq leaves. |
| Rsa.CrtExact | crypt/crtCombine.c:12-36 | The result matches both residues exactly when neither subtraction loses a borrow. |
| Rsa.FactorIsModulus | crypt/crtCombine.c:23-25 | The factor c12(b - a) comes out of bigMod as q itself, instead of zero, exactly when the gap is q and c12 is one moved up by whole words. |
| Rsa.AnswerFits | crypt/crtCombine.c:12-36 | Without a lost borrow the answer is at most pq, and is pq itself exactly under the condition Overflows on the two halves. |
| Rsa.MessageBack | crypt/crtCombine.c:12-36 | From halves congruent to a message below pq: the answer is the message exactly when neither CrtLoses nor Overflows holds; and only a message of zero can overflow. |
| Rsa.RSAEncrypt | crypt/rsa.c:319-333 | The ciphertext is at most the modulus and congruent to the message to the public exponent; for exponent three the square and the product, each reduced; otherwise what bigpow answers, zero exactly when the reduced base is; zero for zero. |
| Rsa.HalfIs | crypt/rsa.c:260-284 | Each half follows from message and ciphertext: the message's residue, or for a prime that divides it zero, or the prime itself. |
| Rsa.RSADecrypt | crypt/rsa.c:336-348 | For distinct odd primes of two or more words and a message below pq: the number that comes back is the message exactly when neither CrtLoses nor Overflows holds of the two halves (for a message above zero, exactly when CrtLoses does not); and for any message, it is congruent to it exactly when CrtLoses does not hold. |
| Rsa.EncryptDecrypt | crypt/rsa.c:319-348 | Decrypting what was encrypted gives every message below pq back, as the same number, exactly when CrtLoses does not hold of the two halves. |
| Rsa.LongKeyFailure | crypt/rsa.c:336-348 | Every key whose q exceeds 2^64 has a message, neither prime dividing it, that decryption gets wrong. |
| TinyFs.ComputeChecksum | emu/devtinyfs.c:91-100 | The loop's sum is the checksum the block format uses. |
| TinyFsBlocks.Sealed | emu/devtinyfs.c:199-243 | A written block sums to zero with its own last byte, and keeps the rest. |
| TinyFsBlocks.DataRoundTrip | emu/devtinyfs.c:159-222 | A data or end block reads back as written, padded with zeros, and is never a directory entry. |
| TinyFsBlocks.DirRoundTrip | emu/devtinyfs.c:142-243 | A directory entry reads back with its name, cut to its first 27 bytes if longer, unless its first block is outside the medium. |
| TinyFsBlocks.ScrubbedIsNothing | emu/devtinyfs.c:270-286 | A scrubbed block is neither a directory entry nor data. |
| TinyFsBlocks.LooseWrite | emu/devtinyfs.c:199-222 | Writing a block on no chain changes no file. |
| TinyFsBlocks.DirectoryWrite | emu/devtinyfs.c:225-243 | Writing a directory block changes exactly its own file. |
| TinyFsBlocks.LastLinkWrite | emu/devtinyfs.c:199-222 | Rewriting a chain's last block changes exactly the one file, to the bytes the new chain holds. |
| TinyFsState.GrowStep | emu/devtinyfs.c:832-853 | Blocks written back to front before the commit leave every file as it was. |
| TinyFsState.CommitFirst | emu/devtinyfs.c:882-885 | The directory block of a first write makes exactly the new bytes the file's contents. |
| TinyFsState.CommitAppend | emu/devtinyfs.c:886-895 | The rewritten last block makes the file its old bytes, the gap, then the new bytes. |
| TinyFsState.GapExactly | emu/devtinyfs.c:865-895 | A file is its old bytes followed by the new ones exactly when it was empty or its last block was not. |
| TinyFsState.GapHappens | emu/devtinyfs.c:865-895 | A consistent medium of four blocks on which an append puts 44 zeros in between. |
| TinyFsState.EmptyBlockLost | emu/devtinyfs.c:882-895 | After a write an old block of the file is still marked, and is still on a chain exactly if the file was not empty: a first write to a file with one empty block loses that block. |
| TinyFsState.NeatFirst | emu/devtinyfs.c:882-885 | A first write keeps every file neat: named, and with bytes in its last block if it has any. |
| TinyFsState.NeatAppend | emu/devtinyfs.c:886-895 | An append keeps every file neat. |
| TinyFsBlocks.BlankIsClean | emu/devtinyfs.c:359-440 | A medium without directory blocks is clean: whole, separate, neat files. |
| TinyFsBlocks.CleanIs | emu/devtinyfs.c:359-440 | A clean medium has only one reading, and that one is neat. |
| TinyFs.Tfs.MapAlloc | emu/devtinyfs.c:121-139 | A block that was free, marked; or none, when none is free. |
| TinyFs.Tfs.Append | emu/devtinyfs.c:815-907 | The write past its checks: the same, in terms of the state before, down to the history of the medium. |
| TinyFs.Tfs.FreeBlocks | emu/devtinyfs.c:246-267 | Exactly the blocks walked are unmarked. |
| TinyFs.Tfs.FreeFile | emu/devtinyfs.c:270-286 | The entry is blank, its chain and directory block unmarked, the directory block scrubbed. |
| TinyFs.Tfs.NewFile | emu/devtinyfs.c:304-351 | A new entry with one block of its own; the files on the medium stay, neat ones neat, at every state; fails only when nothing is free. |
| TinyFs.Tfs.Write | emu/devtinyfs.c:797-907 | Every state the medium passes through holds the files as before, and the last one the files after; refused and failed writes leave everything as it was; out of space only when the free blocks cannot hold the data. The blocks taken are exactly the new ones of the file's chain, which were free. On neat files nothing comes between old bytes and new, all files stay neat, and so does every state on the way. |
| TinyFs.Tfs.Read | emu/devtinyfs.c:717-784 | Exactly the slice of the chain's bytes, cut at the file's end. |
| TinyFs.Tfs.Remove | emu/devtinyfs.c:270-286 | Exactly this file leaves the medium, in one block write; exactly the blocks of its chain and its directory block become free; the others stay neat. |
| TinyFsMount.PathWalks | emu/devtinyfs.c:246-267 | From the start of a path, freeblocks visits only blocks of that path. |
| TinyFsMount.Pigeonhole | emu/devtinyfs.c:407-439 | Blocks each marked once are no more than the medium has, so a cyclic chain is followed no further. |
| TinyFsMount.Purged | emu/devtinyfs.c:407-439 | Purging one file leaves every survivor's blocks marked and its contents as they were. |
| TinyFsMount.Survived | emu/devtinyfs.c:407-439 | A file whose chain ends keeps a chain of its own, fully marked, apart from the others. |
| TinyFsMount.NoneInvented | emu/devtinyfs.c:359-440 | Every file after mounting was a file before, with the same bytes. |
| TinyFsOrbit.SharedEnd | emu/devtinyfs.c:407-439 | Two whole chains that share a block share their last one, so it is enough that the scan marks what it kept. |
| TinyFsOrbit.ChainNoCycle | emu/devtinyfs.c:407-439 | A whole chain leads to no cycle. |
| TinyFsOrbit.CycleInWalk | emu/devtinyfs.c:246-267 | When a walk comes back to one of its own blocks, every block of a cycle it leads to lies from that place on, which is the part freeblocks does not visit. |
| TinyFsOrbit.RecoverableKeeps | emu/devtinyfs.c:359-440 | On a medium of whole, separate files every directory block keeps its file, and none leads to a cycle. |
| TinyFsMount.ExactKept | emu/devtinyfs.c:407-439 | A chain that ends keeps the exact account of the scan: which files are kept, which blocks are scrubbed, which are marked. |
| TinyFsMount.ExactPurged | emu/devtinyfs.c:246-286 | So does a chain that meets a marked or a bad block and is purged, its cycle, if it has one, staying marked. |
| TinyFsMount.MountedWhole | emu/devtinyfs.c:359-440 | On a medium of whole, separate files exactly the files' blocks are marked after mounting, and the medium is as it was. |
| TinyFsMount.TfsInit | emu/devtinyfs.c:359-440 | On any medium, cyclic chains included: a file is kept, unchanged, exactly when its chain ends and no earlier whole chain meets it; the directory blocks of the others are scrubbed, and nothing else is written; the blocks marked are exactly those of the files kept and those on a cycle some directory block leads to. So on a medium of whole, separate chains exactly the files' blocks are marked; on a clean medium, such as any state of the operations, all operations may follow. |
| PoolTree.ReplaceOrdered | emu/alloc.c:104-181 | A subtree replaced by one of no new sizes keeps the order. |
| PoolTree.RingUnlink | emu/alloc.c:108-112 | Taking one block out of a ring leaves the ring of the others, and touches only its neighbours' links. |
| PoolTree.SpineMin | emu/alloc.c:147-168 | The end of the left spine is the least size of the right subtree, and taking it out keeps the rest in order. |
| PoolTree.TreeWithout | emu/alloc.c:104-181 | A tree whose subtree lost one block represents the set without that block, links of other headers untouched. |
| PoolRemove.Locate | emu/alloc.c:104-181 | Which case a block is in, read from its links: ring member, ring head with others, or alone. |
| PoolRemove.Promoted | emu/alloc.c:114-139 | The next of a ring takes the head's place in the tree, and its children's and parent's links follow. |
| PoolInsert.Descend | emu/alloc.c:205-219 | The next node on the way down is on the path of the size looked for. |
| PoolInsert.LeafJoined | emu/alloc.c:221-225 | A new leaf at the path's end keeps the order and adds exactly its block. |
| PoolInsert.InsertedRing | emu/alloc.c:207-213 | A block of a size already there goes second in its ring. |
| PoolInsert.FoundFit | emu/alloc.c:239-256 | What the descent ends with is the least size that fits, or nothing fits. |
| Pools.NeedUnits | emu/alloc.c:234-234 | The size asked of the tree is the least multiple of the pool's unit that holds the request and its header. |
| Pools.Pool.constructor | emu/alloc.c:33-47 | An entry of the pool table is a valid pool without chunks. |
| Pools.Pool.PoolDel | emu/alloc.c:104-181 | In all five cases the tree stays parent-consistent and ordered and loses exactly the one block. |
| Pools.Pool.PoolAdd | emu/alloc.c:184-226 | The tree stays parent-consistent and ordered and gains exactly the one block, marked free. |
| Pools.Pool.Search | emu/alloc.c:239-256 | A free block of the least size that fits, or none when none fits. |
| Pools.Pool.PoolAlloc | emu/alloc.c:229-325 | A block no caller held. Where a free block fits, the least that does, whole or, when at least a quarter of the size asked would be left, cut to exactly the size needed, with exactly the rest back among the free blocks. Only where none fits is memory asked for, within the pool's maximum, and the block is then exactly the size needed, with exactly the rest of the new chunk, if any, added to the free blocks. Blocks held stay as they are; cursize is the total held. |
| Pools.Pool.PoolFree | emu/alloc.c:328-357 | Exactly the one block is given back: the free blocks and their sizes are those before, with it and a free block on either side made one; other held blocks stay as they are; an address not held changes nothing. |
| PoolState.SplitOff | emu/alloc.c:265-272 | Splitting a block keeps tiling and tails, with the rest on its way to the tree. |
| PoolState.Joined | emu/alloc.c:338-353 | Joining a block with its neighbour keeps tiling and tails. |
| PoolState.Settled | emu/alloc.c:338-356 | Putting the joined block into the tree leaves no two neighbouring blocks both free. |
| PoolState.NewChunk | emu/alloc.c:300-320 | A new chunk beside the others is tiled by the block and the rest, with leader and end marks. |
| PoolState.MagicTells | emu/alloc.c:328-357 | The free mark is on exactly the blocks of the tree, the others on exactly the blocks held. |
| PoolArena.TiledSplit | emu/alloc.c:265-272 | A block cut in two leaves its chunk tiled, with both tails. |
| PoolArena.TiledMerge | emu/alloc.c:338-353 | Two neighbours made one leave their chunk tiled, with the tail. |
| PoolArena.ChunkLaidOut | emu/alloc.c:300-320 | From its leader to its end mark a chunk is a sequence of blocks, each beginning where the one before ends. |
| Scheduler.StepInv | emu/dis.c:452-565 | Every step keeps one token, the queue's shape, the count of waiting processes and the promise to wake the sleeper. |
| Scheduler.RunSafe | emu/dis.c:452-565 | In every run at most one process has the token, asleep or handing over included, and one that runs with no yield asked for has nobody waiting. |
| Scheduler.RunQueue | emu/dis.c:452-565 | In every run vmq is the processes waiting in acquire followed by parked interpreters, yield is at least the number waiting, idle means vmq is empty, and nobody who waits is in no queue. |
| Scheduler.RunProgress | emu/dis.c:452-706 | At every state in which somebody waits, the process with the token can take a step, or can be woken by one that is there; not that the waiting one ever gets it. |
| Scheduler.RunStarts | emu/dis.c:491-512 | From a start with a new interpreter, in every run an idle token has a new interpreter on its way to take it. |
| Interp.Isched.AcquireStep | emu/dis.c:452-488 | On the linked queue: exactly the machine's step. |
| Interp.Isched.ReleaseStep | emu/dis.c:491-512 | On the linked queue: exactly the machine's step, a new interpreter when none is parked; by Scheduler.RunStarts that interpreter is there in every run in which the token is idle. |
| Interp.Isched.YieldStep | emu/dis.c:515-538 | On the linked queue: exactly the machine's step. |
| Interp.Isched.StartupStep | emu/dis.c:541-565 | On the linked queue: exactly the machine's step. |
| Mux.OneReaderAtATime | emu/devmnt.c:604-664 | In every interleaving at most one caller reads the channel, and rip names it. |
| Mux.RepliesReachTheirCallers | emu/devmnt.c:761-788 | In every interleaving no two callers share a buffer, a completed call has the reply with its tag, and the data lies in the caller's own buffer. |
| Mux.RepliesAnswerTheirCalls | emu/devmnt.c:761-788 | While flush writes fail only harmlessly, a completed call had the reply's tag, as its own or as its flush's, while it was on the queue, and has begun no other call since. |
| Mux.RepliesWereRead | emu/devmnt.c:667-788 | The reply of a completed call, tag and data, is the very message its reader had last read from the channel when it completed the call. |
| Mux.ReadOnce | emu/devmnt.c:667-788 | No message read completes two calls. |
| Mux.FlushTagsShared | emu/devmnt.c:801-806 | Two calls have one flush tag exactly when the tags went round between their turns; never while no more were taken than there are. |
| Mux.TheOneThatBearsTheTag | emu/devmnt.c:761-788 | As long as no more flush tags were taken than there are, a reply goes to the one call on the queue that bears its tag, and is dropped when none does. |
| Mux.OneCompletion | emu/devmnt.c:761-788 | One reply completes at most one call. |
| Mux.SomebodyIsAwake | emu/devmnt.c:604-664 | While flush writes fail only harmlessly, no caller sleeps with nobody reading and nobody awake to read. |
| Mux.FlushFailExact | emu/devmnt.c:791-826 | A failed flush write leaves a sleeper behind exactly when nobody reads, another caller sleeps and the one giving up is the only one awake. |
| Mux.FlushFailLate | emu/devmnt.c:791-826 | A failed flush write lets a call go that is about to be completed exactly when the reader has picked that call. |
| Mux.FailedFlushStrands | emu/devmnt.c:791-826 | A run of three callers from the start to such a state, and the sleeper left behind. |
| Mux.DeliveredTooLate | emu/devmnt.c:791-826 | A run in which a caller gives up its call while the reader is handing it a reply. |
| Mount.Mnt.EnterGate | emu/devmnt.c:641-658 | The test of rip under the lock: exactly the machine's step, reader or sleeper. |
| Mount.Mnt.FindReply | emu/devmnt.c:761-788 | The loop over the queue: exactly the machine's step, the first call whose tag or flush tag matches. |
| Mount.Mnt.Complete | emu/devmnt.c:773-780 | The swap of buffers and the wake-up: exactly the machine's step. |
| Mount.Mnt.NewFlushTag | emu/devmnt.c:801-806 | The next flush tag: exactly the machine's step. |
| Mount.Keeps | emu/devmnt.c:604-826 | Every enabled, harmless step keeps the invariants the methods rely on. |
| Styx.TableIsHeader | emu/styx.c:42-72 | The length table is the length of the fields for every type but the two attach types, where it is zero. |
| Styx.ConvS2M | emu/styx.c:250-370 | The bytes carry tag, clipped numbers, strings and data of the call, the upper four bytes of an offset zero; nothing behind them is written; unknown types give -1. |
| Styx.CarriedOnWire | emu/styx.c:250-370 | Byte offset by byte offset, where each field of each type of message lies, low byte first, signed or not. |
| Styx.ConvM2S | emu/styx.c:115-247 | The answer as a function of the bytes present, and when a message is found, the call read from it. |
| Styx.RoundTrip | emu/styx.c:115-370 | Decoding what was encoded gives every field back, and a number exactly when it fits its field; bytes behind the message do not matter. |
| Styx.EncodedIsFrame | emu/styx.c:250-370 | What is encoded is one whole message exactly when its data is shorter than 2^16. |
| Styx.WholeMessage | emu/styx.c:115-247 | A whole message is taken at its own length, whatever follows. |
| Styx.PartMessage | emu/styx.c:115-247 | Part of a message gives zero, except three bytes or more of an attach message, which are taken for the whole. |
| Stream.OnlyAttachIsCut | emu/devmnt.c:667-736 | No way of cutting the stream harms a message that is not an attach. |
| Stream.AttachCanBeCut | emu/devmnt.c:667-736 | An Rattach that arrives as three bytes and ten ends in the panic over a negative size. |
| Stream.MntRpcRead | emu/devmnt.c:667-736 | Which way a call ends, for any message first in the stream and any pieces; and on success exactly the message is taken, the rest kept. |
| Stream.ReadMessages | emu/devmnt.c:667-736 | Any list of messages, in any pieces, comes out one by one in order, with the rest of the stream left. |
| Flow.RunFifo | emu/qio.c:505-800 | In every interleaving, bytes returned, bytes held and bytes queued are the bytes accepted, in order, and len is what the blocks hold. |
| Flow.StepMoves | emu/qio.c:505-800 | In every run a step takes in exactly its bytes, none if it is refused, and a read hands out exactly the next ones: as many as asked for, or the first block if that is less. |
| Flow.RunBounded | emu/qio.c:505-800 | In every run the queue holds less than its limit and three times the longest block written. |
| Flow.RunReaderServed | emu/qio.c:633-712 | In every run a reader asleep on a queue with blocks has a writer about to wake it. |
| Flow.RunWriterServed | emu/qio.c:744-800 | Without interrupt-level writes and short reads, a writer asleep on a queue with room has a reader about to wake it. |
| Flow.NeverStuck | emu/qio.c:633-800 | With a limit of two or more, under those two conditions reader and writer never wait for each other. |
| Flow.SplittingStrands | emu/qio.c:633-712 | A run with one short read that leaves both asleep, for every limit of two or more. |
| Flow.ProducingStrands | emu/qio.c:505-548 | A run with one interrupt-level write that leaves both asleep, for every limit of two or more. |
| Flow.StuckExactly | emu/qio.c:505-800 | They can come to wait for each other exactly unless the limit is two or more, nothing is written at interrupt level and no read splits a block. |
| Qio.Queue.AppendStep | emu/qio.c:744-800 | On the linked blocks: exactly the machine's step, and the wake-up it decides. |
| Qio.Queue.Produce | emu/qio.c:505-548 | On the linked blocks: exactly the machine's step; a full queue gives -1 and keeps its blocks and bytes, otherwise exactly the one block is added. |
| Qio.Queue.TakeStep | emu/qio.c:645-684 | On the linked blocks: exactly the machine's step, the block taken is the first, and the bytes returned grow by the lesser of its length and the length asked for. |
| Qio.Queue.PutBackStep | emu/qio.c:685-700 | On the linked blocks: exactly the machine's step, the tail in front again. |
| Namespace.Insert | emu/main.c:303-321 | The list stays sorted by mount id and gains exactly the mount. |
| Namespace.Space.constructor | emu/main.c:377-392 | A store with channels and nothing mounted is valid. |
| Namespace.Space.NewMount | emu/main.c:377-392 | A fresh mount with the counter's next value for its id, which is above all others, and one more reference to its channel. |
| Namespace.Space.PgrpCpy | emu/main.c:327-374 | The new table has the shape and the data of the old, on mounts and heads of its own; old ones stay as they are; the copies are numbered in the order of the originals; each channel gains one reference for each head and mount copied. |
| Namespace.SameOrder | emu/main.c:327-374 | Two copies have their ids in the order their originals have theirs. |
| Namespace.ImagesApart | emu/main.c:327-374 | The copies are distinct mounts with distinct positive ids. |
| Namespace.SharedIdExactly | emu/main.c:360-366 | Some mount from before has the id of a copy exactly when there is something to copy and the mount with the last id given is still there. |
| Namespace.SharedId | emu/main.c:360-366 | One mount made and its table copied: two mounts with one id. |
| Namespace.MntScan | emu/devprog.c:801-836 | The mount with the least id above the last one given; the end exactly when there is none. |
| Namespace.WalkTable | emu/devprog.c:711-733 | Scanning again and again visits every mount exactly once, in increasing order of id. |

## Findings

Properties the code does not have. Each is stated with its exact condition and an input or a run that shows it.

- **Subtraction in place loses a borrow** (crypt/bigmath.c:105-108). `bigsub(a, b, a)` re-reads a word of `a`
  after writing it. On 2^64 and 1 the answer is 2^64 too large (`Additive.LostBorrow`). A trimmed number loses
  exactly when a borrow leaves b's words and the next word of a is zero (`Additive.LossIs`); lengths that differ
  by at most one word are safe (`Additive.LossNear`).
- **Decryption by way of two primes** (crypt/crtCombine.c:12-36, crypt/rsa.c:336-348). Both subtractions of
  crtCombine are in place. The message comes back exactly when neither loses a borrow (`Rsa.CrtExact`,
  `Rsa.EncryptDecrypt`): a condition on the two halves, which message and ciphertext determine (`Rsa.Half`).
  For a message below pq the number that comes back is then the message itself (`Rsa.MessageBack`); only zero,
  given to decryption directly, can come back as pq, exactly under `Rsa.Overflows`.
  Every key with q above 2^64 has a message on which it fails: the one that is 1 modulo p and 2^64 modulo q
  (`Rsa.LongKeyFailure`).
- **bigMod can answer the modulus** (crypt/bigMod.c:78). The compare is strict, so m times 2^(32j) reduces to m
  and nothing else does (`Reduction.ModResultIs`). REDC, too, answers N, exactly for the positive multiples of N
  (`Montgomery.Redc`), and so does bigpow when N divides the power (`ModPow.PowerIsModulus`).
- **Brickell exponents** (crypt/brickell_bigpow.c:60-98). The loop runs over the table, not the exponent: nibbles
  past the table are dropped, and with a longer table the words above LENGTH count. The exponent
  used is the one given exactly when all nibbles between the two ends are zero (`Brickell.ExactExponent`).
- **The message length table** (emu/styx.c:70-71) has the attach lengths at types 26 and 27, so it gives zero for
  Tattach and Rattach (`Styx.TableIsHeader`). Three bytes of a cut Rattach are taken for a whole one
  (`Styx.PartMessage`) and mntrpcread panics over a negative size (`Stream.AttachCanBeCut`). It happens exactly
  when some piece ends inside an attach message, at its third byte or later (`Stream.Answer` in
  `Stream.MntRpcRead`).
- **Flow control can deadlock** (emu/qio.c:505-800). Reader and writer may end up asleep together unless the limit
  is at least two, nothing is written at interrupt level, and no read is shorter than its block
  (`Flow.StuckExactly`); there is a run for each case.
- **A failed flush** (emu/devmnt.c:791-826) gives up without waking the next reader. It leaves a sleeper behind
  exactly when nobody reads, another caller sleeps, and the one giving up is the only one awake
  (`Mux.FlushFailExact`, with the run `Mux.FailedFlushStrands`). It also gives up a call
  whose reply another caller is handing over, exactly when the reader has picked that call (`Mux.FlushFailLate`,
  with the run `Mux.DeliveredTooLate`).
- **Appending behind an empty end block** (emu/devtinyfs.c:865-895). The append steps over the last full block's
  44 bytes again, and the file gets 44 zeros in between. It does so exactly when the file has bytes and its end
  block has none (`TinyFsState.GapExactly`, with the medium `TinyFsState.EmptyEnd` in `TinyFsState.GapHappens`). The file
  system's own operations never make such a block (`TinyFs.Tfs.Write`, `TinyFs.Tfs.NewFile`, `TinyFs.Tfs.Remove`).
- **A first write behind an empty block** (emu/devtinyfs.c:882-885). A file with one block and no bytes gets a
  new first block; the old one stays marked and is on no chain until the next mount. No other write loses a block
  (`TinyFsState.EmptyBlockLost`).
- **A chain that runs into itself** (emu/devtinyfs.c:246-267, emu/devtinyfs.c:407-439). Mounting purges such a file,
  but freeblocks stops where the chain was found bad for the first time it gets there, so the blocks of the cycle stay
  marked. These are all the blocks marked for no file (`TinyFsMount.Mounted` in `TinyFsMount.TfsInit`); a medium of
  whole, separate files has none (`TinyFsMount.MountedWhole`).
- **Zero to the zero** is zero in bigPow (crypt/bigPow.c:189-245), as `ModPow.BigPow` states.
- **Ids of a copied name space** (emu/main.c:360-366, emu/main.c:386). newmount counts up before it gives an id,
  pgrpcpy after. So the first copy gets an id that is taken exactly when something is copied and the mount with the
  last id given is still there (`Namespace.SharedIdExactly`, with the input `Namespace.SharedId`); ids within one
  table stay distinct (`Namespace.ImagesApart`).

## Left out

Contracts weaker than the source, or with more in their requires:

- BigInts.Guarantee: allocates with one word of padding, where the macro's padding depends on its argument.
- Shifts.BigRightShift: counts that are neither below 32 nor a multiple of it are not described.
- Shifts.BigLeftShift: counts of 32 and more only go into another number, as res_form and bigMod use them.
- Division.LongBigDivide: the path for a divisor without its top bit is absent; bigMod never takes it.
- Reduction.BigMod: moduli of one word, for which the code reads below its arrays (crypt/bigMod.c:75), are excluded.
- ModPow.BigPow: even moduli, and the two-part way the code has for them, are absent.
- Brickell.BrickellBigPow: the table is as g16_bigpow makes it for this modulus; an odd modulus of two or more words.
- Primality.ProbPrimeTest: the random base is a parameter, from 1 to n - 1; n is odd and of two or more words.
- Rsa.RSADecrypt: the inverse c12 is given; getInverse and buildKeySet, which make it, are absent.
- Rsa.LongKeyFailure: a message that fails is given for every key with q above 2^64, not the set of all of them; CrtLoses decides each message.
- TinyFs.Tfs.Write: the finger cache, which only saves walking, and writes by a handle whose entry was removed are absent.
- TinyFs.Tfs.Remove: opening, closing and truncating by open are absent, so an entry in use is not told apart.
- TinyFsMount.TfsInit: media of more than 65535 blocks, whose numbers do not fit the blocks, are excluded.
- Pools.Pool.PoolFree: the heap holds headers only, so an address inside a block whose user data looks like a header is taken for one not held; true of every address that was once handed out.
- Pools.Pool.PoolAlloc: what sbrk returns is a parameter, any memory not in use; sizes do not overflow 32 bits; the quantum is any number, not only 2^k - 1.
- Pools.Need: BHDRSIZE is 16, as include/pool.h has it with four-byte pointers and words.
- Mux.SomebodyIsAwake: assumes no hang-up; the early return of mntrpcread on a hung-up channel, which leaves rip set, is absent.
- Mux.FlushFailExact: the error exits of mntrpcread, and the separate critical sections of a flush that fails, are one step.
- Mux.RepliesReachTheirCallers: request tags do not wrap around; flush tags do.
- Stream.MntRpcRead: interruptions, and a second caller in between, are in Mux and not here; types above the table, for which the code reads past it, are excluded.
- Styx.ConvM2S: types above the table give -1, where the code reads past the table.
- Styx.ConvS2M: the call's data pointer is the bytes it points to.
- Scheduler.RunProgress: a statement about every state of a run, not about how a run goes on.
- Flow.RunFifo: setting Qflow, which the code does without the lock, is one atomic step; one writer and one reader at a time, as wlock and rlock allow; the wake-up of qproduce belongs to its critical section.
- Qio.Queue.AppendStep: a queue with noblock set, which drops the block, is absent.
- Mount.Mnt.FindReply: the queue is a sequence and not a pointer chain.
- Namespace.Space.PgrpCpy: pin and nodevs are not copied here; lists are sequences and not pointer chains; the locks make the copy one step; cloning of the slash and dot channels is absent.

Parts of the repository that are not modelled:

- crypt/DSS.c, crypt/euclid.c, crypt/md5.c, crypt/sha.c, crypt/bigDivide.c, bigJacobi, and first53Test of crypt/primes.c.
- The unrolled loops of crypt/bigmath.c are written as loops; the assembly versions of the kernels are absent.
- emu/lock.c, and Sleep and Wakeup of emu/proc.c: sleeping and waking are steps of the machines that use them.
- poolimmutable, poolmutable and the listing of chunks in emu/alloc.c; its locks.
- The run queue of ready programs in emu/dis.c: only the token moves.
- I/O errors of the medium under emu/devtinyfs.c.
- cmount and cunmount of emu/chan.c; convD2M and convM2D of emu/styx.c.
- qdiscard, qconsume, qclose, message mode, padblock, pullupblock and trimblock of emu/qio.c.
- Host layers, the console, drawing, the interpreter and its compilers.
