# logmerge: the timestamp-ordered line merger, modelled in Dafny

`logmerge` merges several log files into one output file, ordered by the timestamp of
each line. The time handler turns each line into a timestamp and an `Action`. `NOP`
(or any value other than `SKIP` and `STOP`) adopts the line. `SKIP` discards it.
`STOP` aborts with the handler's error.

`Merge` works in two phases:

1. It opens every file in list order. Per file it makes a cursor (`fileUnit`), reads
   its first line, and pushes the cursor onto a min-heap (`fileHeap`) unless the file
   is already exhausted.
2. It creates the output file. Then, while the heap is not empty, it pops the cursor
   with the earliest timestamp, writes that line and a newline, flushes, advances the
   cursor, and pushes it back unless it reached the end of its file.

Any error returns at once.

This project models that core in Dafny.

- `types.dfy` (module `Types`) defines:
  - bytes and lines;
  - Go's `int64`;
  - `Action` and its three named constants;
  - Go errors as `Nil | Err(message)`;
  - the time handler, as an uninterpreted function `Line -> Verdict`.
- `file_unit.dfy` (module `FileUnits`) holds the cursor:
  - `Read` specifies one `readLine` as a function on the cursor's state (scanner position, `timestamp`, `line`, `eof`);
  - three lemmas characterise the end-of-input, STOP and adopt paths, each after any run of SKIPped lines;
  - the class `FileUnit` has the same fields, and its `ReadLine` method has the source's loop. It is proved to perform exactly `Read`.
- `file_heap.dfy` (module `FileHeaps`) is `fileHeap` together with the `container/heap` operations that drive it:
  - an array-backed binary min-heap ordered by the strict `<` on timestamps (`Less`);
  - `Len`, `Swap`, the slice `Push`/`Pop` (`Append`, `RemoveLast`), and `container/heap`'s `up`/`down`;
  - `heap.Push` as `Push` and `heap.Pop` as `PopMin`. They are proved to keep heap order and the multiset of cursors, and `PopMin` is proved to return a cursor whose timestamp is least.
- `merge_spec.dfy` (module `MergeSpec`) says what `Merge` must produce:
  - `Emissions` is each file's stream: the records a cursor holds after each successful `readLine`, and the error (or clean end) that ends it.
  - `PrimeError` is the error priming stops at.
  - `MergedFrom(sources, h, trace, err)` is the promise about the written trace, given below.
  - Lemmas turn that promise into a permutation of all streams and into the empty cases.
- `merge.dfy` (module `Merging`) is `Merge` itself:
  - the priming loop (`Prime`, `PrimeOne`);
  - the pop–write–advance loop (`Round`, inside `Merge`'s `while`);
  - the value-level invariant `MergeInvariant` the loop keeps;
  - `Linked`, which ties the cursor and heap objects to those values;
  - lemmas for each step.
- `scenarios.dfy` (module `MergeScenarios`) states five of the merger's tests for every input of their shape: TestNilMerge, TestEmptyMerge, TestMixMerge, TestStopMerge and TestMidStopMerge. They are proved from `Merge`'s contract. TestBaseMerge compares against log files and an expected output that are not part of this model; TestGzipMerge and TestDeleteSrcMerge exercise `MergeByOption`, which is left out.

`MergedFrom(sources, h, trace, err)` states:

- with `err == Nil`, every file ended cleanly, and the trace restricted to file `i` is exactly file `i`'s stream;
- with an error, the last written record came from a file whose stream ended with that error and was written in full, every other file's written records are a prefix of its stream, and every other file written in full ended cleanly, so the merge stopped at the first advance that failed;
- if every stream is sorted, the trace is sorted; and after an error, no record any file has not yet had written is earlier than the last record written, so, with the other clauses and up to the order of equal timestamps, the trace is the timestamp-ordered merge of all streams cut right after the first failing file's last record.

The output bytes are `Output(Records(trace))`: each written line followed by a newline.

Two behaviours of the code worth knowing:

- **Priming.** Priming opens, reads and pushes one file at a time. The first error stops it before later files are opened, and before the output is created.
- **STOP with a nil error.** `readLine` returns nil and leaves the cursor's `timestamp` and `line` in place, but the scanner has moved past the line. `Merge` therefore pushes the cursor back and writes its held record once more. The model does exactly that, and `Drain` repeats the held record in that case. On the real scanner the held line's bytes may have been overwritten by the intervening scan (see the aliasing line under "Left out"), so what is written again is the held record only under the model's value semantics. The same happens while priming: when a file's first line that is not SKIPped gets STOP with a nil error, nothing has been adopted yet, so the zero cursor is pushed and `Merge` writes an empty line at timestamp 0 for it (`StopNilWhilePriming`).

## Model

| member | source | states |
|---|---|---|
| FileUnits.Read | logmerge.go:78-111 | one `readLine` never moves the scanner backwards; a nil result without `eof` means a line was consumed (and adopted, unless it was STOPped with a nil error); `eof` once set stays set |
| FileUnits.ReadAtEnd | logmerge.go:86-93 | at end of input after any run of SKIPped lines: with no scanner error `eof` is set and nil returned, otherwise the scanner's error is returned; `timestamp` and `line` are untouched either way |
| FileUnits.ReadStops | logmerge.go:96-102 | the first line that is not SKIPped gets STOP: the handler's error (nil included) is returned, that line is consumed, and `timestamp`, `line` and `eof` are unchanged |
| FileUnits.ReadAdopts | logmerge.go:96-110 | the first line that is not SKIPped gets any other action: that line and the handler's timestamp are stored, `eof` stays as it was, nil is returned; no SKIPped line is ever adopted |
| FileUnits.FileUnit.constructor | logmerge.go:129-133 | a new cursor has zero timestamp, no line, is not at end of input, and nothing is scanned |
| FileUnits.FileUnit.ReadLine | logmerge.go:78-111 | the method's new state and returned error are exactly those `Read` gives for the old state |
| FileHeaps.RootIsMin | logmerge.go:61 | in a sequence ordered by `Less` along every parent–child edge, the root's timestamp is no later than any other |
| FileHeaps.RootIsLeast | logmerge.go:155 | the cursor at the root of a heap-ordered slice is no later than any cursor in the slice |
| FileHeaps.FileHeap.constructor | logmerge.go:115-118 | `new(fileHeap)` with `heap.Init`: a valid heap with no cursors |
| FileHeaps.FileHeap.Len | logmerge.go:59 | the number of cursors in the heap |
| FileHeaps.FileHeap.Less | logmerge.go:61 | strict `<` on the timestamps at two positions: a cursor is never `Less` than itself, and otherwise if not `Less` the second is no later; `NoChildLess` ties it to the heap order |
| FileHeaps.FileHeap.NoChildLess | logmerge.go:61 | in a valid heap no cursor is `Less` than its parent: the order the heap keeps is the one `Less` defines |
| FileHeaps.FileHeap.Swap | logmerge.go:63-65 | the cursors at the two positions are exchanged and nothing else in the array changes |
| FileHeaps.FileHeap.Append | logmerge.go:67-69 | the slice becomes the old slice followed by the new cursor, growing the backing array when it is full |
| FileHeaps.FileHeap.RemoveLast | logmerge.go:71-76 | returns the slice's last cursor and shortens the slice by one |
| FileHeaps.FileHeap.Push | logmerge.go:141 | `heap.Push`: the heap stays valid and its multiset of cursors gains exactly the pushed one |
| FileHeaps.FileHeap.PopMin | logmerge.go:155 | `heap.Pop`: returns the old root, whose timestamp is least among the cursors in the heap, and the multiset loses exactly that cursor; the heap stays valid |
| MergeSpec.PrimeErrorAt | logmerge.go:119-143 | priming fails exactly when some file fails to open or its first `readLine` fails, and then with the error of the first such file in list order; with no such file it succeeds |
| MergeSpec.ProjectionsPartition | logmerge.go:154-171 | the records of a trace whose entries all name a file below `n` are exactly, as a multiset, the union of the per-file projections |
| MergeSpec.MergePermutes | logmerge.go:154-173 | after a clean merge the written records are a permutation of all the files' streams together |
| MergeSpec.OnlyOneSource | logmerge.go:154-171 | when no file but `j` has records in the trace, the trace's records are file `j`'s, in order |
| MergeSpec.NothingToMerge | logmerge.go:154-173 | when every file yields nothing, a clean merge writes nothing |
| Merging.PendingSnoc | logmerge.go:154-171 | writing one more record of a file not yet fully written lowers the number of records still to be written, so the loop terminates |
| Merging.PrimeStep | logmerge.go:135-142 | after a successful first `readLine` the new cursor agrees with its file's stream, and it is in the heap exactly when it is not at end of input |
| Merging.StepTracks | logmerge.go:155-170 | writing the popped cursor's record and advancing it: every other cursor still agrees with its stream, and the advanced one either agrees with the rest of its stream or its stream is written in full and ends with the returned error |
| Merging.StepSorted | logmerge.go:154-170 | with every stream sorted, writing the least held record keeps the trace sorted, and the advanced cursor's next record is no earlier |
| Merging.Advance | logmerge.go:163-170 | how `readLine` on a cursor whose record was just written continues its file's stream: an error ends the stream there, end of input ends it cleanly, and a newly adopted line is the stream's next record |
| Merging.StepShrinks | logmerge.go:154-171 | each cycle writes a record that had not been written yet, so the number still to be written drops |
| Merging.TracksPrefix | logmerge.go:157-166 | the records of a file written so far are a prefix of that file's stream |
| Merging.StepKeeps | logmerge.go:163-170 | a successful advance, plus putting the cursor back unless it is exhausted, preserves the loop invariant `MergeInvariant` |
| Merging.StepFails | logmerge.go:163-166 | an advance that fails leaves a trace that satisfies `MergedFrom` with that error |
| Merging.StepFailsFirst | logmerge.go:154-170 | when an advance fails, every other file whose stream is already written in full ended cleanly: only the failing file ends with an error |
| Merging.StepFailsEarliest | logmerge.go:154-166 | with every stream sorted, when an advance fails no record left unwritten in any file is earlier than the one just written |
| Merging.RestNoEarlier | logmerge.go:154-170 | a file's records not yet written are no earlier than any bound its held record meets, when its stream is sorted |
| Merging.Finish | logmerge.go:154-173 | once the heap is empty, every file's stream has been written in full and ended cleanly: the trace satisfies `MergedFrom` with nil |
| Merging.Reinsert | logmerge.go:168-170 | a cursor not at end of input goes back into the heap, and the heap then holds the cursors of these files plus that one; an exhausted cursor stays out |
| Merging.PrimeOne | logmerge.go:120-142 | opens one file and reads its first line: it returns that file's own error, or else a new cursor in the state `Read` gives, pushed unless exhausted |
| Merging.PrimedExtend | logmerge.go:135-142 | priming one more file, with its cursor pushed unless at end of input, keeps every primed cursor in the state its first `readLine` gives and in the heap exactly when not at end of input |
| Merging.Prime | logmerge.go:115-143 | the priming loop returns exactly `PrimeError`; on success every file has a fresh cursor in the state one `readLine` from its start gives (`Primed`), agreeing with its stream, and a file is in the heap exactly when its cursor is not at end of input |
| Merging.PopEarliest | logmerge.go:155 | pops a cursor of a file in the heap whose held timestamp is least among the files in the heap, and the heap then holds the others |
| Merging.RootLinks | logmerge.go:155 | the heap's root belongs to a file in the heap and holds the earliest record among them |
| Merging.AdvanceCursor | logmerge.go:163 | `readLine` on the popped cursor gives the state `Read` specifies and changes no other cursor |
| Merging.Round | logmerge.go:155-170 | one pop–write–advance cycle: the output is the written trace; on success the loop invariant holds again; on failure the trace satisfies `MergedFrom` with the error; in both cases fewer records remain to be written |
| Merging.Merge | logmerge.go:114-174 | a priming error is returned before the output is created; otherwise an `os.Create` error is returned; otherwise the output is created and holds exactly the written trace, sorted when every file is sorted, a permutation of all streams keeping each file's order when the result is nil, and otherwise cut short right after the last record of the first file whose advance failed, every other fully written file having ended cleanly, with (when every file is sorted) no unwritten record earlier than the last one written |
| MergeScenarios.NoSourcesNoTrace | logmerge_test.go:119-127 | with no files, any merge outcome has an empty trace and a nil error |
| MergeScenarios.CleanStreamsCleanMerge | logmerge.go:163-166 | when every file's stream ends cleanly, no merge outcome carries an error |
| MergeScenarios.EmptySource | logmerge_test.go:92-108 | an opened file with no lines primes without error and yields an empty, clean stream |
| MergeScenarios.NilMerge | logmerge_test.go:110-128 | merging no files returns the output's creation error, or else creates an empty output and returns nil |
| MergeScenarios.EmptyMerge | logmerge_test.go:92-108 | merging any number of empty files creates an empty output and returns nil |
| MergeScenarios.MixMerge | logmerge_test.go:130-145 | a file that primes cleanly merged with an empty one: the output is created and holds exactly the first file's records, each line followed by a newline, and the merge returns the error ending that file's stream, nil when it reads cleanly |
| MergeScenarios.StopNilWhilePriming | logmerge.go:96-102 | when a file's first line gets STOP with a nil error, priming succeeds with the cursor not at end of input, and the file's stream starts with an empty line at timestamp 0 |
| MergeScenarios.StopMerge | logmerge_test.go:147-160 | with a handler that STOPs every line with an error, merging files whose first one has a line returns that error and never creates the output |
| MergeScenarios.AbortWritesEarlierLines | logmerge.go:154-166 | for two files yielding 1, 3 then a STOP, and 2, a trace that stops after 1 and 3 without the earlier 2 is not an admitted outcome of the failing merge |
| MergeScenarios.AbortAtFirstFailure | logmerge.go:154-166 | for two files yielding 1 then a STOP with "a", and 2 then a STOP with "b", a trace that writes 1 and 2 and ends with "b" is not an admitted outcome: the merge ends at the first failing file |
| MergeScenarios.MidStopMerge | logmerge_test.go:162-204 | when the first file's second line is STOPped with an error and the other file is empty, the merge returns that error and the output holds exactly the first line and a newline |

## Left out

- File system and buffering: `os.Open` and `os.Create` are parameters of the model. Each source's `openErr` is the result of `os.Open`, and `Merge`'s `createErr` is the result of `os.Create`. `defer Close`, `bufio.Scanner` buffering and `bufio.Writer` are not modelled.
- The scanner is modelled as the file's lines plus one error reported at end of input. Token splitting, line-length limits and carriage returns are not modelled.
- Write and `Flush` errors are left out: the model's writes always succeed. The code does not check `Flush`'s result, but `bufio.Writer` keeps a failed flush's error and the next `Write` returns it; the model captures neither.
- `filepath.Base`: the cursor's `filename` holds the path as given. Nothing in the merge reads it.
- The handler is a pure function of the line. In the source it is any Go func value, shared by all cursors; a handler with state or side effects (printing, counting, a clock) is outside the model.
- The handler is uninterpreted. `TimeStartHandler` and its time parsing and printing (timeHandler.go) are not part of this model.
- Merging.Merge: the order among cursors with equal timestamps is not stated. `Less` is strict and the heap is not stable, so only non-decreasing order, the permutation and each file's own order are proved.
- Aliasing of the scanner's byte slices is not modelled: lines are values. A held `line` is the scanner's buffer, which a later scan of the same file may overwrite.
- `MergeByOption`, its options, gzip output, `DeleteSrc` and the concurrent mode do not appear in the modelled file. They are not part of this model.
- `container/heap`'s `Init` on a non-empty slice and `Fix`/`Remove` are never used by `Merge`, and they are not modelled.
