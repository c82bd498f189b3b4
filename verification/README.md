# Blockchain demo with a van Emde Boas index, modelled in Dafny

The program (`abc.java`, class `BlockchainVEB`) keeps student records as a
chain of blocks. Each block stores a roll number, an obfuscated name and date
of birth, a timestamp, the digest of the previous block and a hashed key.
Three structures are kept side by side:
- the linked chain of blocks;
- a map from roll number to block;
- a van Emde Boas tree over the universe [0, 131072), which answers "is this
  roll number taken?".

The console menu does three things:
- "Check your data" shows a record and de-obfuscates it when the key matches;
- "Enter a new block" takes the first free roll number in [10001, 99999];
- "Check if blockchain is tampered" walks the chain comparing digests.

The Dafny project models these pieces in five modules:

- `IntSqrt` (`int_sqrt.dfy`): the cluster size. The source computes it as
  `(int) Math.ceil(Math.sqrt(size))`; here it is the least `s` with `s * s >= size`.
- `VebTree` (`veb.dfy`): the tree as an immutable recursive value, with:
  - the -1 "empty" sentinel, kept as in the source;
  - lazily created clusters, as `Option`;
  - an eagerly built summary;
  - `contains` and `insert` exactly as written, including the non-leaf insert
    that fills an empty cluster directly and records its index in the summary.

  `Elems` is the set a tree stands for. `Valid` is the representation
  invariant: min and max are the extremes, and the summary holds exactly the
  indices of the non-empty clusters. `Contains` is proved equivalent to
  membership, and `Insert` is proved to keep `Valid` and to add exactly one
  element.
- `Obfuscation` (`obfuscation.dfy`): `encrypt`/`decrypt`. Each UTF-16 unit is
  XORed with the key "supersecret", repeating; decrypt and encrypt undo each other.
- `KeyHash` (`hash_key.dfy`): `hashKey`, djb2 over the four big-endian signed
  bytes of an int, with Java's 32-bit wrap-around written out. It is shown to
  equal the unbounded djb2 value wrapped once, and to collide on 12345678 and
  12345901.
- `BlockLedger` (`ledger.dfy`): the process state as one `Ledger` value, holding
  the chain, the map, the tree and `currentHash`. It also covers:
  - `createBlock`, `appendBlock`, and the create-append-insert step every path
    of the source performs;
  - loading parsed CSV rows;
  - the integrity walk;
  - the lookup of "Check your data";
  - the free-roll-number search and "Enter a new block";
  - the two start-up blocks.

  `Inv` is the ledger invariant, kept by every operation:
  - the tree indexes exactly the map's keys;
  - every mapped block carries its key and lies in the chain;
  - the chain is linked by digest;
  - `currentHash` is the digest of the last block.

`calculateHash` is a parameter `digest: Block -> Text`, since SHA-256 is not
modelled. The clock (`Instant.now()`) is a parameter `now`.

The key check at abc.java:259 compares `hashKey` values, so a record does
not open only with the key it was created with: `KeyHash.HashKeyCollides`
proves that 12345678 and 12345901 open the same record.

## Model

| member | source | states |
|---|---|---|
| IntSqrt.CeilSqrt | abc.java:50 | the cluster size is the least s whose square reaches the node's size |
| IntSqrt.CeilSqrtBetween | abc.java:49-52 | for a node larger than 2 the cluster size lies in [2, size), so the nested constructor calls terminate and are smaller |
| VebTree.Empty | abc.java:45-54 | the constructed node is valid, has the requested size, stores nothing and has min -1 |
| VebTree.High | abc.java:56-58 | high(x) is a cluster index below the cluster size |
| VebTree.Low | abc.java:60-62 | low(x) is below the cluster size and x is recovered as high(x) * s + low(x) |
| VebTree.Decompose | abc.java:56-62 | high/low is the only split of x into a cluster index and an in-cluster offset below s |
| VebTree.ClusterMember | abc.java:68-70 | x is stored below a node exactly when cluster high(x) exists and stores low(x) |
| VebTree.PushDown | abc.java:83-97 | the cluster part of insert keeps the node's size, min and max; what it does to the clusters and summary is PushDownCorrect's |
| VebTree.Insert | abc.java:73-103 | insert keeps the node's size; that it keeps the tree valid and adds exactly x is InsertCorrect's |
| VebTree.Contains | abc.java:64-71 | on a valid tree contains(x) answers true exactly when x is in the set the tree stands for |
| VebTree.PushDownCorrect | abc.java:83-97 | the cluster part of insert keeps summary and clusters well formed and adds exactly the pushed element below the node |
| VebTree.InsertCorrect | abc.java:73-103 | insert keeps the tree valid and the stored set grows by exactly x |
| VebTree.InsertThenContains | abc.java:64-103 | after insert(x), contains(y) is true exactly when y is x or was contained before |
| VebTree.InsertPresentIsInvisible | abc.java:73-103 | inserting an element already present changes no contains answer and no stored element |
| VebTree.InsertOrderIrrelevant | abc.java:73-103 | two inserts store the same set in either order |
| VebTree.InsertMinMax | abc.java:73-103 | after insert the node is non-empty, its min is the least and its max the greatest stored element |
| VebTree.ValidMinMax | abc.java:41-47 | on a valid tree min (and max) is -1 exactly when nothing is stored, otherwise they are the extremes |
| VebTree.EmptyContainsNothing | abc.java:45-71 | a freshly constructed tree contains no element of its universe |
| Obfuscation.Encrypt | abc.java:112-118 | encrypt keeps the length and each unit differs from the input by the key unit at its position mod 11 |
| Obfuscation.Decrypt | abc.java:120-122 | decrypt keeps the length, and encrypting its result gives the input back |
| Obfuscation.EncryptTwice | abc.java:112-122 | applying the key stream twice is the identity |
| Obfuscation.DecryptEncrypt | abc.java:112-122 | decrypt restores every encrypted text |
| KeyHash.SignedByte | abc.java:126 | a byte's bit pattern u in [0, 256) reads as a signed Java byte in [-128, 128) that is u modulo 256 |
| KeyHash.KeyBytes | abc.java:126 | an int becomes four signed Java bytes whose unsigned values, read big-endian in base 256, are the key's 32-bit pattern |
| KeyHash.Round | abc.java:129 | one loop round yields an int congruent to hash * 33 + b modulo 2^32 |
| KeyHash.Rounds | abc.java:128-130 | the loop over the bytes keeps hash a Java int whatever the bytes |
| KeyHash.RoundsWrapOnce | abc.java:128-130 | wrapping after every round gives the unbounded djb2 value wrapped once |
| KeyHash.HashKey | abc.java:124-133 | hashKey(key) is the unbounded djb2 hash of the key's signed bytes from 5381, wrapped to an int |
| KeyHash.HashKeyCollides | abc.java:124-133 | the distinct keys 12345678 and 12345901 hash alike, so the key check cannot tell them apart |
| BlockLedger.EmptyLedger | abc.java:107-109 | before any block the chain and map are empty and the tree is a valid empty tree over [0, 131072) |
| BlockLedger.NewBlock | abc.java:27-35 | the block keeps roll number, key and time, stores name and date of birth so that decrypt gives them back, and uses "0" for a missing previous hash |
| BlockLedger.CreateBlock | abc.java:159-164 | the new block carries hashKey(seed), currentHash becomes its digest, it is mapped under its roll number, chain and tree are untouched |
| BlockLedger.AppendBlock | abc.java:166-176 | the block goes after every existing block, which are kept in order |
| BlockLedger.AppendKeepsLinked | abc.java:166-176 | appending a block whose previous hash is the tail's digest keeps every link of the chain valid |
| BlockLedger.AddKeepsInv | abc.java:159-176 | mapping, appending and indexing one block chained to currentHash keeps the ledger invariant |
| BlockLedger.AddBlock | abc.java:191-192 | create-append-insert keeps the invariant, indexes exactly one more roll number, maps it to the new block, appends that block and leaves other entries alone |
| BlockLedger.LoadRows | abc.java:183-194 | replaying parsed rows keeps the invariant and indexes exactly the old roll numbers plus the rows' ids |
| BlockLedger.LoadRowsChain | abc.java:183-194 | the old chain is kept as a prefix and is followed by one block per row in file order, each carrying the row's roll number, its name and date so that decrypt gives them back, hashKey of the row's number, and the row's time |
| BlockLedger.IsBlockchainValid | abc.java:208-220 | the walk succeeds exactly when every link holds; on failure it names the first block whose digest differs from its successor's previous hash |
| BlockLedger.Lookup | abc.java:254-276 | an unindexed roll number finds nothing; a mapped block opens exactly when hashKey(seed) equals its stored key, shows its plain name and date of birth then, and its obfuscated data otherwise |
| BlockLedger.KeyTamperUndetected | abc.java:136 | since calculateHash does not read blockKey, rewriting any block's key keeps a linked chain linked, so isBlockchainValid still succeeds |
| BlockLedger.TailTamperUndetected | abc.java:208-220 | the walk compares the last block's digest with nothing, so replacing it by any block with the same previous hash keeps the chain linked |
| BlockLedger.SameSeedGrants | abc.java:254-265 | a block created with a seed opens with that seed and shows the name and date of birth it was created with |
| BlockLedger.UniverseClusterCount | abc.java:50 | the root of the index has 363 clusters |
| BlockLedger.SourceRootIndex | abc.java:56-58 | high(x) at the root truncates toward zero: for x >= 0 it is the r >= 0 with r * 363 <= x < (r + 1) * 363, for x < 0 the r <= 0 with (r - 1) * 363 < x <= r * 363 |
| BlockLedger.CheckDataPastUniverse | abc.java:254 | roll number 131769 makes contains read cluster index 363 of the 363 root clusters, and -363 reads index -1; neither is mapped |
| BlockLedger.CheckData | abc.java:250-277 | with a range check, any int roll number finds nothing exactly when it is not mapped; otherwise it opens exactly when hashKey(seed) matches, shows the plain or the stored data accordingly, and echoes the block's previous hash and key |
| BlockLedger.FindFreeRollNo | abc.java:291-297 | the result is the least roll number in [10001, 99999] not in the tree, or -1 when all are taken |
| BlockLedger.EnterNewBlock | abc.java:291-306 | a block is created at the first free roll number, keeping the invariant; when none is free nothing changes |
| BlockLedger.Genesis | abc.java:226-230 | the two start-up blocks leave a ledger satisfying the invariant that indexes exactly 12345 and 54321 |
| BlockLedger.GenesisChain | abc.java:226-230 | the first start-up block hangs off "0", the second off the first block's digest |
| BlockLedger.GenesisScenario | abc.java:226-230 | after start-up 12345 and 54321 are found and 99999 is not, and a third block keeps the chain linked |

## Left out

- calculateHash: SHA-256, printed in hex, over rollNo, name, dob, timestamp and previousHash (abc.java:136) is not modelled; the digest is a function parameter. blockKey is not among the hashed fields.
- Tamper detection: the model proves only what the walk checks, the links. Even an ideal digest would not make it detect every change: a rewritten blockKey, the field the access check reads (abc.java:259), keeps every link (KeyTamperUndetected), and so does any change to the last block that keeps its previous hash (TailTamperUndetected).
- Math.sqrt and Math.ceil over doubles are replaced by the exact integer ceiling square root. The two agree for every size the program builds: 131072, 363, 20, 5 and 3.
- Instant.now() is the parameter `now` (`times` for the CSV rows).
- File I/O is not modelled: reading and splitting random_entries.csv, Integer.parseInt, skipping lines with fewer than four fields, and saveBlockToCSV. LoadRows takes the parsed rows.
- The Scanner menu loop, its printed messages and the exit choice are not modelled; the Access result of Lookup carries what is printed.
- The `next` field of Block and appendBlock's walk to the tail are represented by positions in a sequence.
- VebTree.Insert: x outside [0, size) is excluded by the precondition. On such x the source behaves as follows, with s the cluster size and Java's division truncating toward zero:
  - on an empty node any x becomes min and max (abc.java:75); -1 leaves the node looking empty;
  - an x below the current min is swapped into min and the old min is pushed down instead (abc.java:77-81);
  - the value v pushed down (x itself, or the old min after a swap) goes to cluster v / s with offset v % s (abc.java:84-93). While min is non-negative that value is non-negative: below s * s it is stored silently even past size, and from s * s on it indexes past the cluster array and throws. Once min is negative, a negative value pushed down goes to cluster 0 with a negative offset when it is above -s, and throws on clusters[-1] or lower when it is -s or below.

  The menu passes roll numbers in [10001, 99999] and the recursion passes offsets below the cluster size, but the CSV loader passes unchecked ids (see LoadRows).
- BlockLedger.LoadRows: assumes every parsed row has 0 <= id < 131072. loadBlocksFromCSV (abc.java:186-192) inserts Integer.parseInt(parts[0]) unchecked: an id in [131072, 131768] is stored silently in a root cluster (131100, for instance, goes to cluster 361 as offset 57), an id of 131769 or more throws in insert, and an id of -1 becomes the root's min, which the next insert (abc.java:74-75) takes for an empty node and overwrites together with max.
- VebTree.Contains: the precondition excludes x outside [0, size). For the menu's unchecked input this is handled by CheckData under Findings.
- BlockLedger.Lookup: requires a roll number inside the universe. CheckData is the total version.
- Obfuscation.FromLiteral accepts only literals in the Basic Multilingual Plane (one UTF-16 unit per character), which covers the start-up names and dates.
- MAX_NAME_LENGTH, HASH_LENGTH and MAX_BLOCK_KEY are declared in the source but never used.
- The printing in isBlockchainValid names the bad block by its roll number. The model reports its position in the chain.

## Findings

| source | as written | input that shows it | evidently intended | confidence | as-written member | corrected member |
|---|---|---|---|---|---|---|
| abc.java:254 | "Check your data" calls contains on any int; contains reads clusters[high(x)] of the 363-cluster root without a range check | roll number 131769: high = 131769 / 363 = 363, past the end of the cluster array; roll number -363: Java's division truncates to high = -1. Either way an ArrayIndexOutOfBoundsException ends the program | answer "User not found" for a roll number outside the index | high, not executed | BlockLedger.CheckDataPastUniverse | BlockLedger.CheckData |
