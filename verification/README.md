# GeneBank B-tree, modelled in Dafny

This project models the core of a GeneBank loader. The loader reads the DNA
sequences of a GenBank file and counts every subsequence of a fixed length
`k`. It packs each subsequence into a Java `long`, two bits per base, and
inserts each packed key into a disk-resident B-tree of degree `t` once per
occurrence. The tree keeps a frequency for every key.

The tree file starts with a 20-byte header: the marker 1234, `k` and `t` as
4-byte integers, and the root address as an 8-byte integer. After the header
come fixed-size node records of `40t - 4` bytes. Each record holds:

- the leaf flag and the root flag, as 2-byte chars;
- the key count `n`;
- `2t - 1` key slots, each an 8-byte key and a 4-byte frequency;
- `2t` child addresses, where `-1` means no child.

Nodes are allocated by bumping a cursor, `next_address`, one record at a
time.

## Modules

| Module | File | What it holds |
|---|---|---|
| `Base` | `base.dfy` | Integer ranges, `Result`/`Option`, `Long.compareTo`, the wrapping `+ 1` on a frequency. |
| `BigEndian` | `bigendian.dfy` | `writeInt`, `writeLong`, `writeChar` and their reads on a file image. |
| `Nodes` | `nodes.dfy` | The node record, `NODE_BYTES` and `nchildren()`. |
| `Engine` | `engine.dfy` | The tree as an arena (a map from address to node) and the operations on it. |
| `Record` | `record.dfy` | The byte layout of `disk_write`/`disk_read`. It also shows that the arena is a faithful view of the file. |
| `Shapes`, `Splitting`, `Searching`, `Inserting`, `Contents`, `Insertion` | | The ghost tree shape and the B-tree invariant `BInv`, with the proofs about search and insert. |
| `Header` | `header.dfy` | `init_metadata` and the constructor. |
| `Defect` | `defect.dfy` | A concrete tree on which `insert` as written loses a key. |
| `Validator` | `validator.dfy` | `check_valid_r` and `check_height_r`. |
| `KeyCodec`, `Counting`, `GenBank`, `Loader` | | `GeneBankCreateBTree`: `seq_encode`/`key_decode`, `substrings`/`hash_add`, `parse_gbk_file`, and the insert loop of `main`. |

The arena stands for the file. `disk_read` is a map lookup and `disk_write` a
map update. `Record.WritePreservesRepresents` shows that a file image whose
slots decode to the arena keeps doing so after each write.

Operations that can fail return a `Result`. The Java program ends in these
cases with `System.exit(1)` or an uncaught exception, and the model names
each case with an `Error` value:

- a read outside the file;
- a header whose `k` or `t` differs;
- a failed encoding check;
- an exhausted recursion bound, which stands for the stack overflow a
  cyclic arena would cause.

## Model

| member | source | states |
|---|---|---|
| Base.CompareTo | BTree.java:64-67 | `Long.compareTo` answers -1, 0 or 1, negative exactly when the first key is smaller, 0 exactly when the keys are equal. |
| Base.IncFreq | BTree.java:355 | The frequency `+ 1` on a Java `int`: one more below the maximum, and congruent to `f + 1` modulo 2^32 (wraps at the top). |
| Nodes.NodeBytes | BTree.java:22-26 | The record size `2 + 2 + 4 + 12(2t-1) + 8(2t)` is `40t - 4`. |
| Nodes.NChildrenOfPrefix | BTree.java:147-155 | `nchildren()` of a node whose first `m` slots hold children and whose other slots are `-1` is `m`. |
| BigEndian.UValueOfUBytes | BTree.java:459-494 | Reading back the big-endian bytes of a number below 256^n gives the number. |
| BigEndian.Int32BytesOfRead | BTree.java:241-251 | `writeInt` after `readInt` on 4 bytes gives the bytes back (`writeInt`/`readInt` are inverse both ways). |
| BigEndian.Int64BytesOfRead | BTree.java:253-255 | `writeLong` after `readLong` on 8 bytes gives the bytes back. |
| BigEndian.ReadAfterWrite | BTree.java:459-494 | Reading the bytes just written at a position gives them back. |
| BigEndian.ReadAfterOtherWrite | BTree.java:459-494 | A write leaves every byte range it does not overlap unchanged. |
| Engine.NextAddress | BTree.java:188-192 | `next_address()` hands out the cursor and moves it one record on; nothing else changes. |
| Engine.NextAddressFresh | BTree.java:188-192 | The address handed out is a slot boundary not used by any stored node, and the allocator's invariant still holds after. |
| Engine.ReadRollsBack | BTree.java:194-196 | `address_rollback()` undoes `next_address()` exactly. |
| Engine.DiskRead | BTree.java:410-457 | A read succeeds exactly when the address holds a node, and returns that node; otherwise it is an I/O failure. |
| Engine.DiskWrite | BTree.java:459-494 | After a write the address holds the node, the other addresses are kept, and the root, cursor and counter are unchanged. |
| Engine.ScanUp | BTree.java:297-299 | The forward scan of `rsearch` stops at the first key not below the search key; every key it passes is below it. |
| Engine.ScanDownSkips | BTree.java:386-391 | Every key the backward scan of `insert_nonfull` passes over is at or above the new key. |
| Engine.RSearch | BTree.java:290-318 | A hit names a node of the arena (or the start node) and an index whose key is the search key. |
| Searching.RSearchCorrect | BTree.java:290-318 | On a subtree keeping the invariant, `rsearch` succeeds and finds the key exactly when it is in the subtree; the entry found belongs to the subtree. |
| Searching.SearchCorrect | BTree.java:284-288 | On a valid tree, `search` succeeds, answers a node exactly when the key is in the tree, and that node is one of the tree's. |
| Engine.SplitChildEffect | BTree.java:320-347 | `split_child(x, i)`: the new node at the cursor gets the upper `t-1` keys (and upper `t` children); the old child keeps the lower `t-1`; the median and the new child's address are inserted into `x` at `i`; no other node changes. |
| Engine.SplitAllocated | BTree.java:320-347 | A split allocates exactly one record and keeps the allocator's invariant. |
| Splitting.ParentInv | BTree.java:320-347 | Splitting a full child of a non-full node keeps the B-tree invariant of the parent's subtree. |
| Splitting.SplitEntries | BTree.java:320-347 | A split moves entries but neither adds nor loses any. |
| Splitting.SplitLayout | BTree.java:320-347 | After the three writes of a split the arena lays out the split shape. |
| Engine.AsWrittenNeverDescendsRight | BTree.java:401 | The test `compareTo(...) > 1` after a split never holds. |
| Inserting.InsertNonfullOk | BTree.java:383-408 | `insert_nonfull` (with the test as intended) on a non-full node keeping the invariant succeeds. It adds the key to the subtree's entries and keeps the invariant at the same height. Nodes outside the subtree are left as they were, and only a bounded number of new records is used. |
| Engine.NewRoot | BTree.java:362-372 | The full-root step: the old root is rewritten as a non-root, and a new keyless root at the cursor has the old root as its only child. |
| Engine.GrowRoot | BTree.java:362-375 | After splitting the old root under the new root, the new root has one key and is the tree's root; the cursor moved two records. |
| Engine.Create | BTree.java:42-48 | A new tree is one empty leaf root in the first slot after the header, with the cursor one slot on. |
| Insertion.CreateValid | BTree.java:42-48 | The new tree is valid, holds no keys, and has height 1. |
| Contents.CountsBump | BTree.java:352-356 | Raising the frequency of a found entry changes the key-to-frequency map at that key only, by the wrapping `+ 1`. |
| Insertion.InsertPresent | BTree.java:349-356 | `insert` of a key already present keeps the tree valid and raises that key's count only, with the same height, cursor and key counter. |
| Insertion.InsertAbsent | BTree.java:349-381 | `insert` of an absent key (with room for the new records) keeps the tree valid and adds the key with count 1. The height grows by at most one, the cursor grows by a bounded amount, and the key counter by one. |
| Insertion.InsertCorrect | BTree.java:349-381 | `insert` on any valid tree with room keeps it valid and counts the key once more. Afterwards `search` finds the key. |
| Defect.AsWrittenInsertsLeft | BTree.java:398-404 | As written, inserting 6 into the tree built from 1..5 at degree 2 splits the full right leaf and then descends into the left half. |
| Defect.AsWrittenLosesKey | BTree.java:398-404 | After that insert, `search(6)` answers null: the key is in a leaf where the search does not look. |
| Defect.IntendedFindsKey | BTree.java:398-404 | With the test as intended, the same insert leaves 6 where `search` finds it. |
| Record.EncodeNode | BTree.java:459-494 | A record is exactly `NODE_BYTES` long. |
| Record.DecodeEncode | BTree.java:410-494 | `disk_read` of what `disk_write` wrote gives the node back: flags, the first `n` entries and all `2t` children. |
| Record.ReadRecord | BTree.java:410-457 | A read outside the file is an I/O failure; a record read is well formed. |
| Record.WriteRecord | BTree.java:459-494 | A write at a non-negative address succeeds, and reading that address then gives the node written. |
| Record.WritePreservesRepresents | BTree.java:459-494 | Writing a node into its slot keeps every other slot's node readable, so the file keeps representing the arena. |
| Header.EncodeHeader | BTree.java:237-256 | The header is 20 bytes. |
| Header.HeaderRoundTrip | BTree.java:204-256 | Decoding an encoded header gives the fields back, and encoding decoded bytes gives the bytes back. |
| Header.InitCreates | BTree.java:237-260 | A file of at most 4 bytes is replaced by the header 1234, `k`, `t`, 20. |
| Header.InitReopens | BTree.java:204-234 | A file holding the marker is reopened if its `k` and `t` match, with the stored root and `(length - 20) / NODE_BYTES` records. A mismatch ends in an error. |
| Header.InitUnmarked | BTree.java:204-207 | A file longer than 4 bytes without the marker is neither refused nor recreated. |
| Header.OpenCreates | BTree.java:18-54 | The constructor on a new file builds the tree `Create(t)`, and the file it writes (header plus root record) represents that tree. |
| Header.CreateThenReopen | BTree.java:198-263 | Reopening the file just created, with the same `k` and `t`, finds root 20 and one record. |
| Header.AsWrittenReopenOverwritesRoot | BTree.java:42 | As written, reopening puts the allocation cursor on the root's own slot. |
| Header.Reopen | BTree.java:18-54 | Reopening the file of a tree reads its root back. As written the cursor is the root's address, an occupied slot; as intended it is the end of the file, which is free. |
| Validator.AsWrittenComparisons | BTree.java:633-650 | The written range tests on `compareTo` results: `!(c <= 1)` never fires and `!(c > 1)` always fires. |
| Validator.IntendedComparisons | BTree.java:633-650 | The intended tests fire exactly when the child's key is on the wrong side. |
| Validator.OrderReportsExactly | BTree.java:626-630 | The key-order loop reports index `k` exactly when key `k` is not above key `k - 1`. |
| Validator.CountClean | BTree.java:605-617 | The count checks on a node keeping the invariant report nothing, except an empty root. |
| Validator.ValidChecks | BTree.java:603-666 | `check_valid()` with the intended range tests, on a valid tree, reads every node successfully. It reports nothing, except a root without keys. |
| Validator.AsWrittenReportsValidTree | BTree.java:633-650 | `check_valid()` as written reports a valid tree of more than one level as out of order at the root's second child. |
| Validator.Max | BTree.java:675-683 | The last element after sorting is a member of the list and at least every element. |
| Validator.ValidCheckHeight | BTree.java:668-685 | On a valid tree `check_height_r(root)`, one more than the tallest child, equals the height along the first children: all leaves are at one depth. |
| KeyCodec.KeyDecode | GeneBankCreateBTree.java:139-157 | `key_decode` yields only `a`, `c`, `g`, `t`, and exactly `k` of them for a non-negative key. |
| KeyCodec.EncodeRange | GeneBankCreateBTree.java:159-182 | `seq_encode` of at most 31 characters is a non-negative key below 4^length. |
| KeyCodec.EncodePack | GeneBankCreateBTree.java:159-182 | On DNA of at most 31 bases `seq_encode` is the base-4 number of the codes a=0, c=1, g=2, t=3, first base most significant. |
| KeyCodec.DecodeEncode | GeneBankCreateBTree.java:139-182 | `key_decode(seq_encode(s), |s|) == s` for DNA of at most 31 bases. |
| KeyCodec.EncodeInjective | GeneBankCreateBTree.java:159-182 | Two DNA strings of one length up to 31 with the same key are equal. |
| KeyCodec.CheckPasses | GeneBankCreateBTree.java:102-107 | The loader's encoding check passes on a string of at most 31 characters exactly when it is DNA. |
| Counting.AddInt | GeneBankCreateBTree.java:290 | `src_value + dest_value` on Java `int`: the sum when it fits, congruent modulo 2^32 always. |
| Counting.Tick | GeneBankCreateBTree.java:224-233 | One window: counted if non-empty and free of `n`/`N`; other entries unchanged. |
| Counting.Substrings | GeneBankCreateBTree.java:220-242 | `substrings` fails exactly for a negative length (the first `substring` throws). |
| Counting.ScanCounts | GeneBankCreateBTree.java:220-242 | The map holds exactly the countable windows that occur, each with its number of occurrences. |
| Counting.HashAdd | GeneBankCreateBTree.java:276-294 | `hash_add`, over `src` in any order, is the merge: the sum where both maps have the key, the one value elsewhere. |
| Counting.MergedEmpty | GeneBankCreateBTree.java:278-280 | Answering an empty `dest` with `src` itself is the merge. |
| Counting.AggregateCounts | GeneBankCreateBTree.java:51-56 | The aggregated map holds exactly the countable windows of length `k` over all sequences, each with its total occurrences. |
| GenBank.ContainsAt | GeneBankCreateBTree.java:195-203 | `contains` holds exactly when the needle occurs at some position. |
| GenBank.Strip | GeneBankCreateBTree.java:206 | `replaceAll("[0-9\\s]", "")` leaves no digit or white space and never lengthens the line. |
| GenBank.ParseTidy | GeneBankCreateBTree.java:184-218 | Every sequence returned is lower case and free of digits and white space. |
| GenBank.RunOutside | GeneBankCreateBTree.java:194-211 | Outside a block, lines that do not open one (a stray `//` included) change nothing. |
| GenBank.RunInside | GeneBankCreateBTree.java:194-211 | Inside a block, plain lines append their cleaned, lower-cased text. |
| GenBank.Block | GeneBankCreateBTree.java:194-211 | An `ORIGIN` line, plain lines and a `//` line emit exactly one sequence, the cleaned lower-cased text between them. |
| Loader.LoadEntry | GeneBankCreateBTree.java:97-113 | An entry whose key does not decode back to its string ends the load with a bad-encoding error, whichever comparison the inserts use. |
| Loader.CountedTimesValue | GeneBankCreateBTree.java:110-112 | Counting a key `n` times raises its count by `n` (when it fits) and changes no other count. |
| Loader.InsertTimesCorrect | GeneBankCreateBTree.java:110-112 | With the insert corrected at BTree.java:401 (`Intended`), inserting a key `n` times into a valid tree keeps it valid and counts the key `n` more times. |
| Loader.LoadCorrect | GeneBankCreateBTree.java:97-113 | With the insert corrected at BTree.java:401 (`Intended`), loading entries of DNA windows keeps the tree valid and applies every entry's count. A non-DNA entry ends in a bad-encoding error. |
| Loader.LoadNew | GeneBankCreateBTree.java:86-113 | With the insert corrected at BTree.java:401 (`Intended`), loading distinct DNA windows into a new tree gives a valid tree whose keys are exactly the entries' keys, each with the entry's frequency. |
| Loader.AsWrittenLoadLosesKey | GeneBankCreateBTree.java:97-113 | The loop as `main` runs it, over the insert as written (`AsWritten`): on the valid degree-2 tree holding 1 to 5, the window `cg` (key 6), counted once, loads without error, and a search for its key then finds nothing. |

## Left out

- Printing: every `System.err` and `System.out` message, `print_a_dot`,
  `printr`, `print` and the debug-level output. The messages of
  `check_valid_r` are kept as `Report` values, not as text.
- The test methods `test_split` and `test_file`, and
  `insert_subs_one_at_a_time`, which `main` does not call.
- The search program `GeneBankSearch`, the cache, and the command-line
  parsing of `main`. The parsing includes the default degree 102 for an
  argument of 0 and the deletion of an old output file, so the loader
  starts from a new tree.
- `predicted_height` and the comparison in `check_height`: they use
  floating-point `log10`. `check_height_r` itself is modelled.
- `update_rpos` (the rewrite of the header's root field after the root
  grows) is not modelled as a file write. The arena's `root` field carries
  the root address instead.
- I/O errors of the operating system. A read outside the file is modelled;
  other I/O faults are not.
- Unicode beyond ASCII: `toLowerCase` is modelled on `A`-`Z` only.
  GenBank sequence text is ASCII.
- `HashMap` iteration order: the insert loop takes the map's entries as a
  list in any order, and `hash_add` is proved for every order.
- The `int` overflow of `i + len` in `substrings` for lengths near 2^31:
  lengths are unbounded integers there.
- Loader.Load: the loop takes the comparison after a split as a parameter.
  `Load(AsWritten, …)` is the loop as `main` runs it, and
  `Loader.AsWrittenLoadLosesKey` shows that it can lose a key. Its
  correctness theorems (`InsertTimesCorrect`, `LoadCorrect`, `LoadNew`)
  are proved only for `Load(Intended, …)`, the loop over the insert
  corrected at BTree.java:401. Nothing is promised about the counts the
  as-written loop leaves.
- Loader.LoadNew: assumes the cursor stays within a `long` for the number
  of insertions. The Java `long` would wrap after 2^63 bytes; the model
  reports an I/O failure instead.
- Engine.InsertWith: a cursor that would pass 2^63 - 1 is a failure rather
  than a wrapped `long` address.
- Engine.RSearch, Engine.InsertNonfull, Validator.CheckValid,
  Validator.CheckHeight: a `fuel` bound (the number of stored nodes,
  enough for any tree that keeps the invariant) stands for the recursion.
  A cyclic arena, where Java would overflow its stack, fails as
  `Exhausted`.
- Header.Open on a file longer than 4 bytes without the marker: modelled
  as written. The new root is written at offset 0, over the file's first
  record bytes, because `rpos` is still 0. No intended behaviour is
  claimed for it.

## Findings

| source | as written | input that shows it | evidently intended | confidence | as-written member | corrected member |
|---|---|---|---|---|---|---|
| BTree.java:401 | `key.compareTo(x.keys[i]) > 1` after a split; `compareTo` returns -1, 0 or 1, so the descent never moves to the new right half | degree 2, keys 1 to 5 inserted into a new tree, then 6 | `> 0`: descend right when the key is above the promoted median | high (not executed) | Defect.AsWrittenLosesKey, Loader.AsWrittenLoadLosesKey | Insertion.InsertCorrect, Loader.LoadCorrect |
| BTree.java:637 and BTree.java:646 | `!(y.keys[i].compareTo(x.keys[i]) <= 1)` never fires, and `!(z.keys[i].compareTo(x.keys[i]) > 1)` always fires | any valid tree of two or more levels, for example the degree-2 tree holding 1 to 5 | `<= 0` and `> 0`: report a child key on the wrong side of its separator | high (not executed) | Validator.AsWrittenReportsValidTree | Validator.ValidChecks |
| BTree.java:42 | on reopening, `next_address = rpos` puts the allocation cursor on the root's own slot, so the next node allocated overwrites the root | a tree created by the constructor and reopened with the same `k` and `t` | the cursor after the last record, `20 + num_nodes * NODE_BYTES` | medium (not executed) | Header.AsWrittenReopenOverwritesRoot | Header.Reopen |
