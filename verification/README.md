# pi_repeat: earliest repeated N-digit string in the digits of pi

This project models the search engine of `pi_repeat.c` and proves properties of the model. The program looks for the smallest offset at which some N-digit string of pi's digits begins for the second time.

It works in batches of B windows. A window is the N digits that start at a given offset.

- **Index.** In each batch, every window is inserted into a hashed index.
  - The key is the numeric value of the window's last K digits.
  - The table `g_set` holds the head of one singly linked chain per key.
  - The arena `g_nodes` holds the chain nodes. Node 0 means "none".
- **Insertion phase.** A window that is already present ends the program at once. This is the insertion-phase match.
- **Retry phase.** Otherwise, later windows are streamed past the finished index. This continues while they lie below the best answer so far and not past the 15000000000 ceiling (`dist<=15000000000`). The first window found in the index becomes the new best.
- **Next batch.** The search moves on by B and repeats, as long as the batch start is still below the best answer and not past the ceiling (`start<=15000000000`).

The model has six modules, one file each.

| file | module | what it holds |
|---|---|---|
| `digit_stream.dfy` | `DigitStream` | The digit source as a total function `nat -> Digit`. A reader `Gen` stands for `PI_GEN_T`, created at an offset (`make_pi_gen`) and read one digit at a time (`pi_gen`). |
| `rolling_key.dfy` | `RollingKey` | 10^K, the value of a digit string, and the rolling update `key = (key*10+v) % K10`. It proves that after at least K updates the key is the value of the last K digits read, whatever it held before. |
| `lex_order.dfy` | `LexOrder` | Lexicographic order on digit strings, in which every chain is kept. Also the digit-by-digit comparison loop of `set_test`. |
| `hash_index.dfy` | `HashIndex` | The index as an immutable arena (heads, nodes, first free slot) with a ghost per-key view of each chain as a sequence of node ids. Also `set_clear`, `set_test` and the validity invariant. |
| `search_spec.dfy` | `Search` | What the batch loop computes, stated over the digit source alone. It gives the program as written, a corrected search, and a proof that the corrected search returns a repeat with no repeat before it at or below the ceiling. That is the earliest repeat whenever one lies at or below the ceiling; an insertion-phase match of the last batch can lie past the ceiling, and then an earlier repeat past the ceiling may go unseen. |
| `search_engine.dfy` | `Engine` | The loop of `main` over the index and the digit buffer `g_digits`. It is proved to compute exactly the descriptions in `Search`. |

**Validity invariant.** An index is valid when two things hold:
- every chain hangs from its head, runs through used arena slots, and ends at 0;
- every chain holds only windows of its own key, in strictly increasing lexicographic order of their first N-K digits.

`set_test` keeps the index valid. Validity is what makes the early `no_match` exit sound: a walk that stops at the first larger prefix cannot have skipped an equal one.

**Engine invariant.** At every step of the insertion phase, the chain of each key records exactly those batch offsets below the current one whose window has that key. A `set_test` hit therefore means exactly "this window repeats an earlier window of the batch".

**Notes on the code:**
- **Chain order.** Chains stay sorted, as the header comment at `pi_repeat.c:5` says ("increasing values"). This holds because line 98 splices the new node in where the walk stopped, behind the last smaller entry. So the early exit never misses a match, and this is proved (`HashIndex.SetTest`).
- **Key and compared digits.** The key is the value of the last K digits of a window, the "bottom K digits" of the comment at line 67. The header comment at line 5 speaks of the "first K digits" instead. The walk compares the first N-K digits; the last K digits are covered by the key.
- **Start of the retry phase.** The retry phase first tests the window at `dist = start + B`. After the insertion loop `i` equals B, and line 231 sets `dist=start+i`.
- **Overlapping windows.** The two equal windows may overlap. Nothing in the code requires them to be disjoint.

## Model

| member | source | states |
|---|---|---|
| DigitStream.ReadIsWindow | pi_repeat.c:104-145 | Reading m digits from a reader at offset p yields exactly the m source digits starting at p: nothing is skipped, repeated or reordered. `Engine.Prime` uses it to state its buffer contents as reader output. |
| DigitStream.MakeGenIsSkip | pi_repeat.c:149-163 | A reader created at offset `pos` is the reader created at offset 0 after `pos` digits have been read and discarded. |
| RollingKey.TenToThe | pi_repeat.c:186-191 | The loop of K multiplications by 10 computes 10^K, the size of the key table. |
| RollingKey.KeyStep | pi_repeat.c:208 | One rolling update yields a valid key, below K10, whatever the key held before. |
| RollingKey.KeyAfterSuffix | pi_repeat.c:176 | After at least K updates the key is the value of the last K digits fed in, whatever it held before; the stale key carried over from the previous batch is flushed. |
| RollingKey.KeyAfterSlide | pi_repeat.c:241 | When the key is the value of the last K digits, one more update slides it by one digit: it becomes the value of the new last K digits. |
| RollingKey.ValueInjective | pi_repeat.c:67-70 | Two K-digit strings with the same value are the same string, so equal keys mean equal last K digits. |
| LexOrder.LessIffFirstDifference | pi_repeat.c:82-87 | The chain order puts a before b exactly when, at the first index where they differ, a has the smaller digit. |
| LexOrder.LessTransitive | pi_repeat.c:5 | The chain order is transitive, so a strictly increasing chain has every later entry above every earlier one. |
| LexOrder.LessAsymmetric | pi_repeat.c:5 | No two strings each precede the other. |
| LexOrder.InsertKeepsIncreasing | pi_repeat.c:84-99 | Inserting a string after every entry below it and before the first one above it keeps the chain strictly increasing. |
| LexOrder.ComparePrefix | pi_repeat.c:82-87 | The comparison loop returns 0 exactly when the stored prefix equals the candidate's. A negative result means the stored prefix comes first (go on walking); a positive one means it comes later (stop). |
| HashIndex.Alloc | pi_repeat.c:49-58 | The storage holds K10 heads and B+1 nodes, slot 0 being the "none" sentinel, and the zeroed storage is already a cleared index. |
| HashIndex.Clear | pi_repeat.c:60-64 | `set_clear` keeps the table size and the arena and resets the first free slot to 1, so the next node taken is slot 1. |
| HashIndex.ClearIsEmpty | pi_repeat.c:60-64 | After `set_clear` the index is valid and every chain is empty, whatever the arena held before and whatever the buffer holds. |
| HashIndex.Visit | pi_repeat.c:80-87 | One step of the walk compares a recorded window's first N-K digits with the candidate's, with the same three outcomes as the comparison loop, and reads the node's link. |
| HashIndex.Scan | pi_repeat.c:78-92 | The walk loop passes only entries whose first N-K digits lie below the candidate's. It stops at the first equal or larger entry, or runs off the end; `prev` is the last entry passed, 0 if none. |
| HashIndex.Walk | pi_repeat.c:78-93 | The walk reports a match exactly when some entry of the chain agrees with the candidate on the first N-K digits. Every entry it passed is below the candidate; on a miss, the entry it stopped at is above. |
| HashIndex.NothingEqual | pi_repeat.c:85 | In a strictly increasing chain, stopping at an entry above the candidate (or at the end) after passing only smaller ones means no entry equals the candidate, so the early exit misses nothing. |
| HashIndex.FullMatchIffPrefix | pi_repeat.c:67-89 | Within a chain of the candidate's key, agreeing on the first N-K digits is agreeing on all N digits. |
| HashIndex.SetTest | pi_repeat.c:73-101 | A hit means exactly that an entry agrees on the first N-K digits; with the right key, that an identical N-digit window is recorded. The index stays valid. A lookup or a hit changes nothing. A miss with insert adds exactly one node, for offset `pos`, in its sorted place; every other head and offset is kept. Every chain records exactly the offsets it did, plus `pos` in the chain of `key` after an insertion. |
| HashIndex.Link | pi_repeat.c:96-99 | The new node takes the next free slot and inherits the link that pointed past `prev` (the head when `prev` is 0); that link now points at it. The count goes up by one, and no other head, node or stored offset changes. |
| HashIndex.SpliceValid | pi_repeat.c:96-99 | Splicing a window of key `key` where the walk stopped keeps every chain linked, keyed and strictly increasing. |
| HashIndex.OnlyOnce | pi_repeat.c:96-99 | A node sits in one chain only and once only. |
| HashIndex.WriteKeepsValid | pi_repeat.c:213 | Writing a new digit into the buffer past every recorded window leaves the index valid. |
| Search.FirstHit | pi_repeat.c:210-224 | The insertion phase reports the first batch window that repeats an earlier window of the same batch; every window before it repeats none. |
| Search.BoundIsGuard | pi_repeat.c:233 | Being below the retry bound is the retry loop's guard: below the best answer, if any, and not past the ceiling. |
| Search.RetryHit | pi_repeat.c:233-253 | The retry phase reports the first window below the bound that repeats a window of the batch, and no window before it does. |
| Search.BatchBest | pi_repeat.c:231-253 | The best answer never increases, and a changed best is a repeat that lies at or after the end of the batch. |
| Search.SearchAsWritten | pi_repeat.c:196-256 | The batch loop as written; an insertion-phase report is always a repeat. |
| Search.AsWrittenAgrees | pi_repeat.c:196-256 | When the loop as written runs to its end, its final best is the corrected search's answer. When it stops at an insertion-phase match, the corrected answer is a repeat at or before the reported offset. |
| Search.SearchOptimal | pi_repeat.c:196-256 | The corrected batch loop answers the search: it reports a repeat with no repeat before it up to the ceiling, or reports none when there is none up to the ceiling. |
| Search.SearchFindsLeast | pi_repeat.c:196-256 | Whenever some window up to the ceiling repeats, the corrected search reports a repeat no later than it. |
| Search.BatchKeepsCovered | pi_repeat.c:196-254 | A batch without an insertion-phase match extends the set of compared window pairs to every window before the next batch start, up to the new bound. This is the invariant of the batch loop. |
| Search.AsWrittenMissesBest | pi_repeat.c:215-222 | For a concrete digit string, the program as written reports a later insertion-phase match although the retry phase had already found an earlier repeat. |
| Engine.KeyIsWindowKey | pi_repeat.c:204-214 | Once the digits up to the end of a window have been read, the rolling key is that window's key, whatever key the batch started from. |
| Engine.FoundIffMatches | pi_repeat.c:215 | The index holds a window equal to the one at offset d exactly when that window repeats one of the batch windows inserted so far. |
| Engine.Prime | pi_repeat.c:202-209 | Priming reads the first N-1 digits of the batch into the buffer and feeds them to the key, leaving the reader at offset start+N-1. The buffer holds exactly what N-1 reads from `make_pi_gen(start)` return, and the reader stands where one created at offset 0 would after start+N-1 reads. |
| Engine.InsertWindow | pi_repeat.c:215 | The insertion-phase test of window start+i hits exactly when it repeats an earlier window of the batch. Otherwise it is recorded, and the index keeps its content invariant. |
| Engine.InsertStep | pi_repeat.c:212-215 | One insertion step stores the next digit at buffer cell N-1+i and updates the key, then tests the window at start+i. |
| Engine.InsertPhase | pi_repeat.c:210-224 | The insertion phase returns exactly the first repeat within the batch. When there is none, the index records every window of the batch. |
| Engine.LookUp | pi_repeat.c:242 | The retry-phase test of a window hits exactly when it repeats a window of the batch, and changes nothing. |
| Engine.RetryStep | pi_repeat.c:235-242 | One retry step slides the test window by one digit, so it holds the window at `dist`, and keeps the rolling key. |
| Engine.RetryPhase | pi_repeat.c:226-253 | The retry phase computes the new best answer exactly as `Search.BatchBest` describes it. |
| Engine.RunBatch | pi_repeat.c:198-253 | One batch clears the index, primes the key, runs the insertion phase and, when that finds nothing, the retry phase. |
| Engine.BatchLoop | pi_repeat.c:196-259 | The batch loop of `main`, run from offset 0, reports exactly what `Search.SearchAsWritten` describes. Alongside, it computes the corrected answer `Search.SearchFrom`. |
| Engine.FindRepeat | pi_repeat.c:196-259 | The batch loop reports what `Search.SearchAsWritten` describes, and it also returns the corrected answer: a repeat with no repeat before it at or below the ceiling, or none when there is no repeat at or below the ceiling. A final best from a loop that runs to its end is that answer; an insertion-phase report is never earlier than it. |
| Engine.PiRepeat | pi_repeat.c:164-194 | The program refuses N unless K < N (K = 8). Otherwise, with B = 500000000 and the ceiling 15000000000, it reports what the loop as written computes. A final best equals the corrected answer (a repeat with no repeat before it at or below the ceiling); an insertion-phase report is at or after it. |

## Left out

- `pi_gen`'s file reading is not modelled. That covers opening `pi-NNNN.txt`, reading lines with `fgets`, skipping the space between digit groups, and moving to the next file after 1000000 lines. The digit source is a parameter: a total function from offset to digit.
- `make_pi_gen`'s skipping of whole 10^8-digit files is not modelled. A reader created at an offset is modelled as positioned at that offset (`DigitStream.MakeGenIsSkip`). The skip arithmetic depends on the layout of the data files, which is not part of this model.
- `printf`/`fflush` output and the digits they print are not modelled. The verdict is returned as a `Search.Report` instead: the insertion-phase match, or the final best with `None` for `Best=0`. A real best is never 0, because it is always at least B.
- The `argc` check, the usage text and `atoi` are not modelled. N is a natural number parameter; a non-positive N fails `K<N` just as `Engine.PiRepeat` refuses it.
- Allocation failure and the `assert` aborts of `alloc_storage` are not modelled. Allocation is taken to succeed with the sizes given (`HashIndex.Alloc`). The `assert(K<N)` abort is modelled as the `KeyTooLong` outcome.
- Integer widths are not modelled: `int` keys and node indices, `unsigned long long` offsets. Natural numbers are used instead. With K = 8 and B = 500000000, `key*10+v` stays below 10^9+10 and node indices stay at most B, so neither can overflow a 32-bit signed `int`.
- The variable-length array `test_digits[N]` is a sequence. Like the source, the model copies the last batch window into it from the buffer and then slides it one digit at a time.
- Buffer cells not yet written in a batch are left unconstrained. The stale digits from the previous batch play no part: every result is proved whatever those cells hold.
- Windows past the ceiling are not all compared. The last batch starts at or below the ceiling, and its insertion phase can report a match at up to start+B-1, past the ceiling. A repeat before that match but past the ceiling is then not seen, so neither search promises the earliest repeat in that case (`Search.Answers` only speaks of offsets at or below the ceiling).
- Timing and the performance comments are not modelled. The theorems hold for every N, K < N, B >= 1 and ceiling; the program's constants are used only in `Engine.PiRepeat`.

## Findings

| source | as written | input that shows it | evidently intended | confidence | as-written member | corrected member |
|---|---|---|---|---|---|---|
| pi_repeat.c:215-222 | A match found in the insertion phase is reported and the program exits, even when an earlier batch's retry phase has already set a smaller `best` (the comment at line 217 assumes the match "must be the best answer"). | Digits 1,1,2,3,1,1,1,0,0,... with N=2, B=3, any ceiling >= 4. In batch 0 the retry phase finds that the window 11 at offset 4 repeats offset 0, so best=4. Batch 1 starts at 3 < 4, and its insertion phase matches 11 at offset 5 with 11 at offset 4. Line 246 has already printed "Found possible match 2 at position 4" during batch 0, but the final verdict is wrong: line 218 prints the later match at 5, which the comment at line 217 calls the best answer, and line 222 exits without printing `Best=` (line 257). | Report the smaller of the insertion-phase match and the best so far. The corrected search then returns a repeat with no repeat before it at or below the ceiling, which is the earliest repeat whenever one lies at or below the ceiling. | not executed | Search.AsWrittenMissesBest | Search.SearchOptimal |
