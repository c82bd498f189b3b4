/**
 The ledger around the van Emde Boas index in abc.java: blocks chained by
 digest, a roll-number-to-block map, the vEB tree of roll numbers, and the
 digest of the last created block (currentHash). The process-wide statics of
 the source are one immutable Ledger value here, and calculateHash (SHA-256 in
 hex) and the clock are parameters.
 */
module BlockLedger {

  import opened Options
  import opened VebTree
  import opened Obfuscation
  import opened KeyHash
  import opened IntSqrt

  /** VEB_UNIVERSE: every roll number the index can hold lies below it. */
  const VEB_UNIVERSE: nat := 131072

  /** The range searched for a free roll number when a block is entered. */
  const FIRST_ROLL_NO: int := 10001
  const LAST_ROLL_NO: int := 99999

  /** "0": the previous hash of a block created without one. */
  const ROOT_HASH: Text := [0x30]

  /** A block; the forward link `next` of the source is the block's position
      in the chain. */
  datatype Block = Block(rollNo: int, name: Text, dob: Text, timestamp: int, previousHash: Text, blockKey: int)

  /** calculateHash: a deterministic digest of a block's fields. */
  type Digest = Block -> Text

  datatype Ledger = Ledger(chain: seq<Block>, blockMap: map<int, Block>, tree: VEB, currentHash: Option<Text>)

  /** A raw record of the CSV file, after parsing. */
  datatype Row = Row(id: int, name: Text, date: Text, num: int)

  /** The outcome of "Check your data". */
  datatype Access =
    | NoSuchRecord
    | Granted(name: Text, dob: Text, previousHash: Text, blockKey: int)
    | Denied(name: Text, dob: Text, previousHash: Text, blockKey: int)

  // ---------------------------------------------------------------------------
  // Invariants

  /** Every block's digest is the previous hash stored in its successor. */
  predicate Linked(chain: seq<Block>, digest: Digest)
  {
    forall i | 0 <= i < |chain| - 1 :: digest(chain[i]) == chain[i + 1].previousHash
  }

  /** The tree indexes exactly the keys of the map, and every mapped block
      carries its key and sits in the chain. */
  ghost predicate Indexed(L: Ledger)
  {
    && Valid(L.tree) && L.tree.size == VEB_UNIVERSE
    && Elems(L.tree) == L.blockMap.Keys
    && (forall k | k in L.blockMap :: L.blockMap[k].rollNo == k && L.blockMap[k] in L.chain)
  }

  /** Indexed, chain linked, and currentHash the digest of the last block
      (null while the chain is empty). */
  ghost predicate Inv(L: Ledger, digest: Digest)
  {
    && Indexed(L)
    && Linked(L.chain, digest)
    && L.currentHash == (if L.chain == [] then None else Some(digest(L.chain[|L.chain| - 1])))
  }

  // ---------------------------------------------------------------------------
  // Blocks and the chain

  /** The ledger before anything is created: no blocks, an empty tree. */
  function EmptyLedger(): (L: Ledger)
    ensures L.chain == [] && L.blockMap == map[] && L.currentHash == None
    ensures Valid(L.tree) && L.tree.size == VEB_UNIVERSE && Elems(L.tree) == {}
  {
    Ledger([], map[], Empty(VEB_UNIVERSE), None)
  }

  lemma EmptyLedgerInv(digest: Digest)
    ensures Inv(EmptyLedger(), digest)
  {
  }

  /** The Block constructor: name and date of birth stored obfuscated, a null
      previous hash replaced by "0", the timestamp read from the clock. */
  function NewBlock(rollNo: int, name: Text, dob: Text, blockKey: int, previousHash: Option<Text>, now: int): (b: Block)
    ensures b.rollNo == rollNo && b.blockKey == blockKey && b.timestamp == now
    ensures Decrypt(b.name) == name && Decrypt(b.dob) == dob
    ensures previousHash.None? ==> b.previousHash == ROOT_HASH
    ensures previousHash.Some? ==> b.previousHash == previousHash.value
  {
    DecryptEncrypt(name);
    DecryptEncrypt(dob);
    var prev := if previousHash.Some? then previousHash.value else ROOT_HASH;
    Block(rollNo, Encrypt(name), Encrypt(dob), now, prev, blockKey)
  }

  /** createBlock: the key is stored as hashKey(seed), currentHash becomes the
      new block's digest and the block is mapped under its roll number. The
      chain and the tree are not touched. */
  function CreateBlock(L: Ledger, digest: Digest, rollNo: int, name: Text, dob: Text, seed: int,
                       previousHash: Option<Text>, now: int): (res: (Ledger, Block))
    requires IsInt32(seed)
    ensures res.1 == NewBlock(rollNo, name, dob, HashKey(seed), previousHash, now)
    ensures res.0.currentHash == Some(digest(res.1))
    ensures res.0.blockMap == L.blockMap[rollNo := res.1]
    ensures res.0.chain == L.chain && res.0.tree == L.tree
  {
    var b := NewBlock(rollNo, name, dob, HashKey(seed), previousHash, now);
    (L.(currentHash := Some(digest(b)), blockMap := L.blockMap[rollNo := b]), b)
  }

  /** appendBlock: the block goes after the current tail. */
  function AppendBlock(chain: seq<Block>, b: Block): (r: seq<Block>)
    ensures |r| == |chain| + 1 && r[..|chain|] == chain && r[|chain|] == b
  {
    chain + [b]
  }

  /** Appending a block whose previous hash is the tail's digest keeps the
      chain linked. */
  lemma AppendKeepsLinked(chain: seq<Block>, b: Block, digest: Digest)
    requires Linked(chain, digest)
    requires chain != [] ==> b.previousHash == digest(chain[|chain| - 1])
    ensures Linked(AppendBlock(chain, b), digest)
  {
    var r := AppendBlock(chain, b);
    forall i | 0 <= i < |r| - 1
      ensures digest(r[i]) == r[i + 1].previousHash
    {
      if i + 1 < |chain| {
        assert r[i] == chain[i] && r[i + 1] == chain[i + 1];
      }
    }
  }

  /** One creation, as every path of the source performs it:
      appendBlock(createBlock(rollNo, ..., currentHash)) then vebTree.insert(rollNo). */
  function AddBlock(L: Ledger, digest: Digest, rollNo: int, name: Text, dob: Text, seed: int, now: int): (L': Ledger)
    requires Inv(L, digest) && 0 <= rollNo < VEB_UNIVERSE && IsInt32(seed)
    ensures Inv(L', digest)
    ensures Elems(L'.tree) == Elems(L.tree) + {rollNo}
    ensures rollNo in L'.blockMap && L'.chain == L.chain + [L'.blockMap[rollNo]]
    ensures L'.blockMap[rollNo] == NewBlock(rollNo, name, dob, HashKey(seed), L.currentHash, now)
    ensures forall k | k in L.blockMap && k != rollNo :: k in L'.blockMap && L'.blockMap[k] == L.blockMap[k]
  {
    var (L1, b) := CreateBlock(L, digest, rollNo, name, dob, seed, L.currentHash, now);
    InsertCorrect(L1.tree, rollNo);
    var L' := L1.(chain := AppendBlock(L1.chain, b), tree := Insert(L1.tree, rollNo));
    AddKeepsInv(L, digest, b, L');
    L'
  }

  /** The invariant survives mapping, appending and indexing one block whose
      previous hash is currentHash (or "0" for the first). */
  lemma AddKeepsInv(L: Ledger, digest: Digest, b: Block, L': Ledger)
    requires Inv(L, digest) && 0 <= b.rollNo
    requires L.currentHash.None? ==> b.previousHash == ROOT_HASH
    requires L.currentHash.Some? ==> b.previousHash == L.currentHash.value
    requires L'.chain == L.chain + [b] && L'.blockMap == L.blockMap[b.rollNo := b]
    requires L'.currentHash == Some(digest(b))
    requires Valid(L'.tree) && L'.tree.size == VEB_UNIVERSE
    requires Elems(L'.tree) == Elems(L.tree) + {b.rollNo}
    ensures Inv(L', digest)
  {
    AppendKeepsLinked(L.chain, b, digest);
    assert AppendBlock(L.chain, b) == L'.chain;
    forall k | k in L'.blockMap
      ensures L'.blockMap[k].rollNo == k && L'.blockMap[k] in L'.chain
    {
      if k != b.rollNo {
        assert L.blockMap[k] in L.chain;
      }
    }
  }

  /** The roll numbers of a sequence of rows, in file order. */
  function RowIds(rows: seq<Row>): seq<int>
  {
    if rows == [] then [] else [rows[0].id] + RowIds(rows[1..])
  }

  /** Block b is the one createBlock makes for a row at time `time`: the
      row's roll number, its name and date stored so that decrypt gives them
      back, the hashed key, the time. */
  ghost predicate BlockFor(b: Block, row: Row, time: int)
  {
    && b.rollNo == row.id
    && Decrypt(b.name) == row.name && Decrypt(b.dob) == row.date
    && IsInt32(row.num) && b.blockKey == HashKey(row.num)
    && b.timestamp == time
  }

  /** A stretch of the chain holds exactly the rows' blocks, one per row and
      in file order. */
  ghost predicate RowsMatch(c: seq<Block>, rows: seq<Row>, times: seq<int>)
    decreases |rows|
  {
    if rows == [] then c == []
    else |c| > 0 && |times| > 0 && BlockFor(c[0], rows[0], times[0]) && RowsMatch(c[1..], rows[1..], times[1..])
  }

  /** loadBlocksFromCSV after parsing: each row is created and indexed in file
      order, chained to the previous block's digest. */
  function LoadRows(L: Ledger, digest: Digest, rows: seq<Row>, times: seq<int>): (L': Ledger)
    requires Inv(L, digest) && |times| == |rows|
    requires forall i | 0 <= i < |rows| :: 0 <= rows[i].id < VEB_UNIVERSE && IsInt32(rows[i].num)
    ensures Inv(L', digest)
    ensures Elems(L'.tree) == Elems(L.tree) + (set x | x in RowIds(rows))
    decreases |rows|
  {
    if rows == [] then L
    else
      var L1 := AddBlock(L, digest, rows[0].id, rows[0].name, rows[0].date, rows[0].num, times[0]);
      var L' := LoadRows(L1, digest, rows[1..], times[1..]);
      RowIdsCons(rows);
      L'
  }

  /** The rows' blocks are appended after the existing chain, one per row and
      in file order. */
  lemma {:induction false} LoadRowsChain(L: Ledger, digest: Digest, rows: seq<Row>, times: seq<int>)
    requires Inv(L, digest) && |times| == |rows|
    requires forall i | 0 <= i < |rows| :: 0 <= rows[i].id < VEB_UNIVERSE && IsInt32(rows[i].num)
    ensures var L' := LoadRows(L, digest, rows, times);
      && |L'.chain| == |L.chain| + |rows| && L'.chain[..|L.chain|] == L.chain
      && RowsMatch(L'.chain[|L.chain|..], rows, times)
    decreases |rows|
  {
    if rows != [] {
      var L1 := AddBlock(L, digest, rows[0].id, rows[0].name, rows[0].date, rows[0].num, times[0]);
      var c' := LoadRows(L1, digest, rows[1..], times[1..]).chain;
      var b := L1.chain[|L.chain|];
      assert && L1.chain == L.chain + [b] && BlockFor(b, rows[0], times[0])
             && |c'| == |L1.chain| + |rows| - 1 && c'[..|L1.chain|] == L1.chain
             && RowsMatch(c'[|L1.chain|..], rows[1..], times[1..]) by {
        LoadRowsChain(L1, digest, rows[1..], times[1..]);
        AddRowBlock(L, digest, rows[0], times[0]);
      }
      assert LoadRows(L, digest, rows, times).chain == c' by {
        LoadRowsUnfold(L, digest, rows, times);
      }
      ChainStep(L.chain, b, L1.chain, c', rows, times);
    }
  }

  /** LoadRows on a non-empty row list: the first row's block, then the rest. */
  lemma LoadRowsUnfold(L: Ledger, digest: Digest, rows: seq<Row>, times: seq<int>)
    requires Inv(L, digest) && |times| == |rows| && rows != []
    requires forall i | 0 <= i < |rows| :: 0 <= rows[i].id < VEB_UNIVERSE && IsInt32(rows[i].num)
    ensures LoadRows(L, digest, rows, times)
         == LoadRows(AddBlock(L, digest, rows[0].id, rows[0].name, rows[0].date, rows[0].num, times[0]),
                     digest, rows[1..], times[1..])
  {
  }

  /** The block AddBlock appends for a row is that row's block. */
  lemma AddRowBlock(L: Ledger, digest: Digest, row: Row, time: int)
    requires Inv(L, digest) && 0 <= row.id < VEB_UNIVERSE && IsInt32(row.num)
    ensures var L1 := AddBlock(L, digest, row.id, row.name, row.date, row.num, time);
      && L1.chain == L.chain + [L1.chain[|L.chain|]]
      && BlockFor(L1.chain[|L.chain|], row, time)
  {
    var L1 := AddBlock(L, digest, row.id, row.name, row.date, row.num, time);
    assert L1.chain[|L.chain|] == L1.blockMap[row.id];
  }

  /** The set of a row list's roll numbers, split at its first row. */
  lemma RowIdsCons(rows: seq<Row>)
    requires rows != []
    ensures (set x | x in RowIds(rows)) == {rows[0].id} + (set x | x in RowIds(rows[1..]))
  {
  }

  /** Bookkeeping of LoadRows: a chain extended by one block for the first row
      and then by the blocks of the remaining rows. */
  lemma ChainStep(c0: seq<Block>, b: Block, c1: seq<Block>, c': seq<Block>, rows: seq<Row>, times: seq<int>)
    requires rows != [] && |times| == |rows| && BlockFor(b, rows[0], times[0])
    requires c1 == c0 + [b] && |c'| == |c1| + |rows| - 1 && c'[..|c1|] == c1
    requires RowsMatch(c'[|c1|..], rows[1..], times[1..])
    ensures |c'| == |c0| + |rows| && c'[..|c0|] == c0
    ensures RowsMatch(c'[|c0|..], rows, times)
  {
    assert c'[..|c0|] == c'[..|c1|][..|c0|];
    assert c'[|c0|..][0] == c'[..|c1|][|c0|] == b;
    assert c'[|c0|..][1..] == c'[|c1|..];
  }

  // ---------------------------------------------------------------------------
  // Integrity walk

  /** isBlockchainValid: walk from the head comparing each block's digest with
      its successor's previous hash, stopping at the first mismatch (whose
      position is reported as the source reports that block's roll number). */
  method IsBlockchainValid(chain: seq<Block>, digest: Digest) returns (valid: bool, firstBad: int)
    ensures valid <==> Linked(chain, digest)
    ensures valid ==> firstBad == -1
    ensures !valid ==> 0 <= firstBad < |chain| - 1
    ensures !valid ==> digest(chain[firstBad]) != chain[firstBad + 1].previousHash
    ensures !valid ==> forall j | 0 <= j < firstBad :: digest(chain[j]) == chain[j + 1].previousHash
  {
    var i := 0;
    while i + 1 < |chain|
      invariant 0 <= i && (i == 0 || i < |chain|)
      invariant forall j | 0 <= j < i :: digest(chain[j]) == chain[j + 1].previousHash
    {
      if digest(chain[i]) != chain[i + 1].previousHash {
        return false, i;
      }
      i := i + 1;
    }
    return true, -1;
  }

  /** calculateHash reads rollNo, name, dob, timestamp and previousHash but
      not blockKey. Wherever the digest ignores the key, rewriting a block's
      key keeps every link, so the walk cannot see it. */
  lemma KeyTamperUndetected(chain: seq<Block>, digest: Digest, i: int, k: int)
    requires Linked(chain, digest) && 0 <= i < |chain|
    requires digest(chain[i].(blockKey := k)) == digest(chain[i])
    ensures Linked(chain[i := chain[i].(blockKey := k)], digest)
  {
  }

  /** No block follows the last one, so its digest is compared with nothing:
      any replacement that keeps its previous hash keeps the chain linked. */
  lemma TailTamperUndetected(chain: seq<Block>, digest: Digest, b: Block)
    requires Linked(chain, digest) && chain != []
    requires b.previousHash == chain[|chain| - 1].previousHash
    ensures Linked(chain[|chain| - 1 := b], digest)
  {
  }

  // ---------------------------------------------------------------------------
  // The menu's record operations

  /** "Check your data": an unknown roll number finds nothing; a known one
      yields its block, de-obfuscated when hashKey(seed) equals the stored key
      and still obfuscated otherwise. */
  function Lookup(L: Ledger, rollNo: int, seed: int): (a: Access)
    requires Indexed(L) && 0 <= rollNo < VEB_UNIVERSE && IsInt32(seed)
    ensures a.NoSuchRecord? <==> rollNo !in L.blockMap
    ensures a.Granted? <==> rollNo in L.blockMap && L.blockMap[rollNo].blockKey == HashKey(seed)
    ensures a.Granted? ==> Encrypt(a.name) == L.blockMap[rollNo].name && Encrypt(a.dob) == L.blockMap[rollNo].dob
    ensures a.Denied? ==> a.name == L.blockMap[rollNo].name && a.dob == L.blockMap[rollNo].dob
    ensures !a.NoSuchRecord? ==>
      a.previousHash == L.blockMap[rollNo].previousHash && a.blockKey == L.blockMap[rollNo].blockKey
  {
    if !Contains(L.tree, rollNo) then NoSuchRecord
    else
      var b := L.blockMap[rollNo];
      if b.blockKey == HashKey(seed) then
        Granted(Decrypt(b.name), Decrypt(b.dob), b.previousHash, b.blockKey)
      else Denied(b.name, b.dob, b.previousHash, b.blockKey)
  }

  /** A block created with seed k opens with k, and shows the name and date
      of birth it was created with. */
  lemma {:induction false} SameSeedGrants(L: Ledger, digest: Digest, rollNo: int, name: Text, dob: Text, seed: int, now: int)
    requires Inv(L, digest) && 0 <= rollNo < VEB_UNIVERSE && IsInt32(seed)
    ensures Inv(AddBlock(L, digest, rollNo, name, dob, seed, now), digest)
    ensures var a := Lookup(AddBlock(L, digest, rollNo, name, dob, seed, now), rollNo, seed);
      a.Granted? && a.name == name && a.dob == dob
  {
    var L' := AddBlock(L, digest, rollNo, name, dob, seed, now);
    var b := L'.blockMap[rollNo];
    DecryptEncrypt(name);
    DecryptEncrypt(dob);
    assert Decrypt(b.name) == name && Decrypt(b.dob) == dob;
  }

  /** The root of the index has 363 clusters: 362 * 362 < 131072 <= 363 * 363. */
  lemma UniverseClusterCount()
    ensures CeilSqrt(VEB_UNIVERSE) == 363
  {
    var s := CeilSqrt(VEB_UNIVERSE);
    if s <= 362 {
      MulMonotone(s, 362);
      assert false;
    } else if s >= 364 {
      MulMonotone(363, s - 1);
      assert false;
    }
  }

  /** The cluster index contains(x) reads at the root, as the source computes
      it: Java's int division truncates toward zero, so a negative x gives a
      non-positive index. */
  function SourceRootIndex(x: int): (r: int)
    ensures x >= 0 ==> 0 <= r && r * 363 <= x < (r + 1) * 363
    ensures x < 0 ==> r <= 0 && (r - 1) * 363 < x <= r * 363
  {
    UniverseClusterCount();
    var s := CeilSqrt(VEB_UNIVERSE);
    if x >= 0 then x / s else -((-x) / s)
  }

  /** "Check your data" as written reads clusters[high(x)] of the root without
      a range check: roll number 131769 selects index 363 of a 363-element
      array, so the source throws instead of answering "User not found". */
  lemma {:induction false} CheckDataPastUniverse(L: Ledger)
    requires Indexed(L)
    ensures |L.tree.clusters| == 363
    ensures SourceRootIndex(131769) == |L.tree.clusters|
    ensures SourceRootIndex(-363) == -1
    ensures 131769 !in L.blockMap && -363 !in L.blockMap
  {
    UniverseClusterCount();
    assert WellFormedBelow(L.tree);
    assert 131769 !in Elems(L.tree);
  }

  /** "Check your data" for any int roll number, with the range check the
      source is missing: a roll number outside the index finds nothing. */
  function CheckData(L: Ledger, rollNo: int, seed: int): (a: Access)
    requires Indexed(L) && IsInt32(seed)
    ensures a.NoSuchRecord? <==> rollNo !in L.blockMap
    ensures a.Granted? <==> rollNo in L.blockMap && L.blockMap[rollNo].blockKey == HashKey(seed)
    ensures a.Granted? ==> Encrypt(a.name) == L.blockMap[rollNo].name && Encrypt(a.dob) == L.blockMap[rollNo].dob
    ensures a.Denied? ==> a.name == L.blockMap[rollNo].name && a.dob == L.blockMap[rollNo].dob
    ensures !a.NoSuchRecord? ==>
      a.previousHash == L.blockMap[rollNo].previousHash && a.blockKey == L.blockMap[rollNo].blockKey
  {
    if 0 <= rollNo < VEB_UNIVERSE then Lookup(L, rollNo, seed)
    else
      assert rollNo !in Elems(L.tree);
      NoSuchRecord
  }

  /** The first free roll number: the least i in [10001, 99999] the tree does
      not contain, or -1 when all are taken. */
  method FindFreeRollNo(tree: VEB) returns (newRollNo: int)
    requires Valid(tree) && tree.size == VEB_UNIVERSE
    ensures newRollNo == -1 ==> forall i | FIRST_ROLL_NO <= i <= LAST_ROLL_NO :: i in Elems(tree)
    ensures newRollNo != -1 ==> FIRST_ROLL_NO <= newRollNo <= LAST_ROLL_NO && newRollNo !in Elems(tree)
    ensures newRollNo != -1 ==> forall i | FIRST_ROLL_NO <= i < newRollNo :: i in Elems(tree)
  {
    newRollNo := -1;
    var i := FIRST_ROLL_NO;
    while i <= LAST_ROLL_NO
      invariant FIRST_ROLL_NO <= i <= LAST_ROLL_NO + 1
      invariant forall j | FIRST_ROLL_NO <= j < i :: j in Elems(tree)
    {
      if !Contains(tree, i) {
        newRollNo := i;
        return;
      }
      i := i + 1;
    }
  }

  /** "Enter a new block": take the first free roll number and create the
      block there; when none is free nothing is created and nothing changes. */
  method EnterNewBlock(L: Ledger, digest: Digest, name: Text, dob: Text, seed: int, now: int)
    returns (L': Ledger, newRollNo: int)
    requires Inv(L, digest) && IsInt32(seed)
    ensures Inv(L', digest)
    ensures newRollNo == -1 ==> L' == L
    ensures newRollNo == -1 ==> forall i | FIRST_ROLL_NO <= i <= LAST_ROLL_NO :: i in L.blockMap
    ensures newRollNo != -1 ==> FIRST_ROLL_NO <= newRollNo <= LAST_ROLL_NO && newRollNo !in L.blockMap
    ensures newRollNo != -1 ==> forall i | FIRST_ROLL_NO <= i < newRollNo :: i in L.blockMap
    ensures newRollNo != -1 ==> L' == AddBlock(L, digest, newRollNo, name, dob, seed, now)
  {
    newRollNo := FindFreeRollNo(L.tree);
    if newRollNo != -1 {
      L' := AddBlock(L, digest, newRollNo, name, dob, seed, now);
    } else {
      L' := L;
    }
  }

  // ---------------------------------------------------------------------------
  // Start-up

  /** The two records created at start-up. */
  const FIRST_NAME: Text := FromLiteral("Aditya")
  const FIRST_DOB: Text := FromLiteral("2011-07-19")
  const SECOND_NAME: Text := FromLiteral("Dagur")
  const SECOND_DOB: Text := FromLiteral("2012-11-13")

  /** The two blocks main creates before loading the file. */
  function Genesis(digest: Digest, t1: int, t2: int): (L: Ledger)
    ensures Inv(L, digest)
    ensures Elems(L.tree) == L.blockMap.Keys == {12345, 54321}
  {
    EmptyLedgerInv(digest);
    var L1 := AddBlock(EmptyLedger(), digest, 12345, FIRST_NAME, FIRST_DOB, 12345678, t1);
    AddBlock(L1, digest, 54321, SECOND_NAME, SECOND_DOB, 87654321, t2)
  }

  /** The start-up chain: the first block hangs off "0", the second off the
      first block's digest. */
  lemma GenesisChain(digest: Digest, t1: int, t2: int)
    ensures var L := Genesis(digest, t1, t2);
      && |L.chain| == 2 && L.chain[0].rollNo == 12345 && L.chain[1].rollNo == 54321
      && L.chain[0].previousHash == ROOT_HASH && L.chain[1].previousHash == digest(L.chain[0])
  {
    EmptyLedgerInv(digest);
    var L1 := AddBlock(EmptyLedger(), digest, 12345, FIRST_NAME, FIRST_DOB, 12345678, t1);
    assert L1.chain == [L1.blockMap[12345]];
  }

  /** After start-up 12345 and 54321 are present and 99999 is not, and a third
      block chained to the second's digest keeps the chain valid. */
  lemma {:induction false} GenesisScenario(digest: Digest, t1: int, t2: int, t3: int, name: Text, dob: Text)
    ensures var L := Genesis(digest, t1, t2);
      Contains(L.tree, 12345) && Contains(L.tree, 54321) && !Contains(L.tree, 99999)
    ensures var L := AddBlock(Genesis(digest, t1, t2), digest, 10001, name, dob, 12345678, t3);
      Linked(L.chain, digest) && |L.chain| == 3 && L.chain[2].previousHash == digest(L.chain[1])
  {
    var L := Genesis(digest, t1, t2);
    assert Elems(L.tree) == {12345, 54321};
  }
}
