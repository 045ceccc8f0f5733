# Verified models of the archiver, the chmod mode compiler and the mutex broadcast

The project models three programs of a repository of small Unix tools written in C and proves what they do, on every input and in every run.

**The archiver** (`archive/archiver.c`) keeps files in one archive: `n` packed 280-byte records, four zero bytes, then the contents back to back. *Insert* and *remove* write a whole new file into a temporary one and rename it; *extract* reads slices by the stored offsets. The model goes down to the bytes, the cursors that `read`, `write` and `lseek` share, and the heap nodes of the header list, which is appended to, filtered in place and freed. Upwards it goes to an abstract archive, a sequence of entries (name field, mask, contents): insert is append, remove is a filter by name, extract is a lookup, over any run of commands.

| module | contents |
|---|---|
| `Options`, `Bytes`, `FileInfos` | bytes, 64-bit words, records and their codec, offsets as prefix sums, the filter by name on records |
| `HeaderList` | the linked list with its `eof` sentinel: append, in-place filter through the fictive head, offsets, free |
| `Descriptors` | open files, `copy_file`, the copy loop that tolerates short reads |
| `HeaderScan` | `read_header`: the byte-level scan and the list it builds, on every byte string |
| `Archive` | the abstract archive and its layout |
| `Commands` | what each command does to the file system, as functions |
| `Refinement`, `Laws`, `Batches`, `Extraction` | the refinement theorems, laws over several commands and whole runs, inserts one by one and at once, round trips |
| `Format` | the archive format byte by byte, and that the commands leave it |
| `Archiver` | the commands as methods over heap lists and open files, proved equal to `Commands` |

**The chmod mode compiler** (`chmod/mychmod.c`) is a six-state automaton that compiles a mode string into a group mask and a linked list of clauses, and an interpreter that folds the list over the mode of each file. `ModeSyntax` has the grammar, a parser and its exactness, `ModeMeaning` the meaning bit by bit, `Borrowing` the other meaning that the program's comment suggests for `+u`, `PermList` the list and the interpreter, `ModeCompiler` the automaton and the program's loop over its files, `ModeStrings` what the accepted strings are and mean, letter by letter and digit by digit.

**The broadcast** (`pthread_mutex/main.c`) has one writer and any number of readers that share a string under a mutex, with `done` as the stop signal. `Broadcast` is its step relation; one step is one access to shared data or one call that may block.

`dafny verify dfyconfig.toml` checks everything. Automatic induction is switched off in every lemma: each induction is written out as a recursive call.

## What was found

Where the code does less than its documentation or its purpose suggests, the model follows the code, and the exact condition is proved.

- **Inserting into an archive whose entries were all removed.** The position of the old data is taken from the first header record; without records it is taken from memory that was never written (`archive/archiver.c:582-591`). `Refinement.InsertRefinesAppend` shows that insert is append if and only if the archive has an entry, or is zero-length, or that memory holds an offset of at least 4. `Laws.InsertIntoEmptiedArchive` states it for the command on such an archive: the result is the layout of the new entries if and only if there are none, or that memory holds at least 4 and no skipped argument yields bytes.
- **Arguments that are skipped but can be read.** The size pass skips what is not a regular file, the copy pass opens and copies every argument (`archive/archiver.c:524-531`, `archive/archiver.c:600-609`). A FIFO or a device that yields bytes puts them in front of the data of the next file. `Refinement.TwoPassAgreement` shows that the passes agree if and only if no skipped argument yields bytes, `Refinement.InsertRefinesAppend` carries the condition to the whole archive, and `Laws.StrayBytesSpoilInsert` has the failing input. Remove still undoes such an insert (`Laws.RemoveUndoesInsert`).
- **Inserting in two steps is not always inserting at once.** An insert that stores nothing stops before it writes (`archive/archiver.c:424-430`), so a FIFO alone leaves the archive as it is, but next to a regular file its bytes are appended (`Batches.SecondStrayIsLost`). A missing path does no harm to a second insert, but makes a joint insert into a zero-length archive abort (`archive/archiver.c:451-461`, `Batches.MissingPathSpoilsJointInsert`). `Batches.BatchLaw` shows that these are the only differences.
- **Leftovers in the temporary file.** It is opened without truncation (`archive/archiver.c:406`, `archive/archiver.c:773`). The new archive is right if and only if the temporary file was not longer before (`Refinement.InsertCommand`, `Refinement.RemoveCommand`). `Laws.AbortLeavesTemporary` shows one insert that leaves such a file: a zero-length archive, a missing path and a regular file; `Laws.InsertAfterAbort` shows that a later insert of less data than was left completes with wrong bytes.
- **A stale `errno`.** On a zero-length archive a missing argument makes the second scan abort, although the argument itself is skipped (`archive/archiver.c:451-461`). `Refinement.InsertOutcome` gives the outcome of every insert into a stored archive.
- **Extracting over existing files and repeated names.** Extracted files are not truncated (`archive/archiver.c:708`). The comment at `archive/archiver.c:28` says that repeated names break nothing; `Extraction.ExtractExact` shows that the entry written last under a name comes out intact if and only if neither the file that was there nor an earlier entry of that name was longer; `Extraction.ShorterBehindLonger` is the failing pair. The mask is set before the next entry of the name is opened (`archive/archiver.c:708-715`), so behind an entry without the owner's write permission all others of its name are skipped: `Extraction.ExtractSkips` and `Extraction.ReadOnlyInFront`.
- **The regular expression in the chmod comment** (`chmod/mychmod.c:10`). It and the automaton are incomparable. Of the documented strings exactly those without `=`, `X`, `s`, `t` and without an empty clause before the last are accepted (`ModeSyntax.DocumentedAccepted`); of the accepted ones exactly those whose clauses copy at most one class are documented (`ModeSyntax.AcceptedDocumented`). The empty string counts as an octal number, 0, which the comment does not say (`ModeCompiler.EmptyStringIsZero`).
- **`+u` does not borrow.** The comment at `chmod/mychmod.c:50-52` speaks of groups whose permissions are borrowed. The code takes all three permissions of the named class, narrowed to the chosen classes, whatever they currently are (`chmod/mychmod.c:359-371`). `g+u` on a file only its owner can read changes nothing (`Borrowing.CopyIsNotBorrowing`). For a string with one copied clause, `Borrowing.CopyBorrowsExactly` shows that the code borrows if and only if, for every chosen bit that the clause could change and no later clause overwrites, the bit's class is named exactly when some named class has that permission; `Borrowing.LastCopyBorrowsExactly` has the exact condition for any number of copied clauses. A string without copied clauses has one meaning in both readings (`Borrowing.NoCopyNoDifference`), and so has any string all of whose clauses borrow where they stand (`Borrowing.BorrowsThroughout`).

## Assumptions

- The program runs as an ordinary user who owns the files; the archive and the temporary file can be opened.
- Inserted files are readable, do not change between the size pass and the copy pass, are smaller than 2^63 bytes, and have base names of 1 to 255 bytes. The temporary file is not among the arguments. The archive and the temporary file are not directories and are two different files. At the start of a command `errno` is 0.
- What uninitialised memory holds is a parameter: one value for the probe buffer and one for the new nodes of each header scan, one block per inserted file for the bytes behind the NUL of its name. The theorems hold for all of them.
- In the chmod program, `cur_char` keeps its value from one round to the next, and the `next` of a new list node is null. The source writes neither.

## Model

| member | source | states |
|---|---|---|
| Bytes.LittleEndianRoundTrip | archive/archiver.c:56-58 | Every 64-bit field value survives being written and read back. |
| FileInfos.DecodeEncode | archive/archiver.c:52-60 | A record read back from its 280 bytes is the record that was written. |
| FileInfos.EncodeDecode | archive/archiver.c:52-60 | Any 280 bytes are the encoding of the record they decode to. |
| FileInfos.OffsetIsPrefixSum | archive/archiver.c:619-624 | Offset i is the start of the data plus the sum of the sizes of the earlier records, wrapped to 64 bits. |
| FileInfos.SelectKeeps | archive/archiver.c:742-756 | A record is in the filtered header exactly when it was in the header and its name is not listed (remove) or is listed (extract). |
| FileInfos.SelectPartitions | archive/archiver.c:749 | The results of the two filter flags on one header are disjoint and together have every record exactly as often as the header. |
| HeaderList.MakeNewNode | archive/archiver.c:499-507 | The old sentinel becomes the last data node, a fresh sentinel follows it, and the records before it are unchanged. |
| HeaderList.RemoveNode | archive/archiver.c:725-734 | Unlinks and frees the node behind the given one, or reports -1 and changes nothing at a sentinel. |
| HeaderList.RemoveFilesFromHeader | archive/archiver.c:736-757 | In place on the heap: the result is an acyclic list with one sentinel, made of the surviving nodes in their old order with their old data, and exactly the dropped nodes are freed. The loop ends though a deletion does not advance it. |
| HeaderList.FilterDone | archive/archiver.c:736-757 | The links the finished filter loop leaves form a proper list of the survivors, and a node is live exactly when it survived. |
| HeaderList.PositionsLinked | archive/archiver.c:731 | The successor of a survivor is the next survivor, over any stretch of deleted nodes. |
| HeaderList.UpdateOffsets | archive/archiver.c:613-625 | The two passes over the list give every record the offset of the prefix-sum layout and change nothing else. |
| HeaderList.FreeList | archive/archiver.c:479-487 | Every node, the sentinel included, is freed. |
| HeaderList.FiNode.Free | archive/archiver.c:732 | Only a node that was not freed before may be freed, so no node of any list is freed twice. |
| Descriptors.CopyFile | archive/archiver.c:805-821 | For every 64-bit length, multiples of 1024 included, exactly that many bytes are written, and they are the slice at the given offset as far as the source file reaches. |
| Descriptors.CopyRest | archive/archiver.c:595-598 | Under every schedule of short reads exactly the rest of the source is appended. |
| Descriptors.CopyWithin | archive/archiver.c:805-821 | When source and target are one file and the target starts at 0, what exists at the offset arrives as it was before the copy overwrote parts of the file. |
| HeaderScan.ScanWritten | archive/archiver.c:445-477 | Reading a written header gives exactly the written records, whatever the data behind it, the probe buffer, `errno` and the heap held; no named record is taken for the terminator. |
| HeaderScan.ScanIsExact | archive/archiver.c:445-477 | Conversely, when a scan stops at a terminator that lies behind whole records, the file starts with the encodings of exactly the records it returned. |
| HeaderScan.NodeBound | archive/archiver.c:448-475 | On every byte string, truncated ones included, a scan of `len` bytes makes at most `len / 280 + 1` nodes. |
| HeaderScan.RecordStartExact | archive/archiver.c:451-469 | Where a round reads its record, on every byte string: at the probe, or, when the end of the file cuts the probe short, at the last four bytes, which overlaps bytes consumed before; in a file of less than four bytes the seek fails and sets `errno`. |
| HeaderScan.InfoAtBytes | archive/archiver.c:472-474 | The record is, byte by byte, what the file has from there on and, behind its end, what the new node's memory held. |
| HeaderScan.ErrnoAborts | archive/archiver.c:451-461 | An error number left by an earlier call changes only one thing: where the scan would end at the end of the file, it aborts. |
| HeaderScan.BuildHeader | archive/archiver.c:448-475 | The loop terminates on every byte string and builds a list of exactly the records of the scan. |
| HeaderScan.ReadHeader | archive/archiver.c:445-477 | The list holds the records of the scan and the cursor is back at 0; after an abort every node is freed. |
| Archive.LayoutSlice | archive/archiver.c:18-24 | In a stored archive offset i is 280n + 4 plus the sizes of the earlier files, and the slice of that offset and size is exactly the contents of entry i. |
| Archive.LayoutInjective | archive/archiver.c:18-24 | Two archives with the same bytes have the same entries. |
| Format.LayoutIsTheFormat | archive/archiver.c:18-24 | A file stands for entries exactly when it is formatted like this, position by position: record i at 280i with 256 name bytes, then size, mask and offset as eight bytes each, least significant first; four zero bytes at 280n; the contents from 280n + 4 on, back to back; nothing else. |
| Format.InsertLeavesFormat | archive/archiver.c:572-610 | A completed insert leaves the old and the new entries in that format, under its side conditions. |
| Format.RemoveLeavesFormat | archive/archiver.c:785-795 | A completed remove leaves the entries that are not listed in that format. |
| Format.RunLeavesFormat | archive/archiver.c:402-443 | So does every run of commands from an absent archive, unless the archive stays empty. |
| Format.FormatIsRead | archive/archiver.c:445-477 | Whatever wrote a file in that format, the commands take it for the archive of its entries. |
| Archive.ScanLayout | archive/archiver.c:445-477 | Scanning a stored archive returns its header. |
| Archive.SelectOnLayout | archive/archiver.c:781-794 | Filtering the header of a stored archive gives the surviving entries' records, and their slices, put together, are the surviving contents. |
| Archive.SelectEntriesExact | archive/archiver.c:742-756 | An entry survives exactly when its name is not listed, or is listed, as the flag says. |
| Archive.SelectEntriesPartition | archive/archiver.c:742-756 | What remove keeps and what extract takes for the same names partition the entries, as multisets. |
| Commands.Basename | archive/archiver.c:534-544 | The stored name is the part of the path behind its last slash, or the whole path. |
| Refinement.TwoPassAgreement | archive/archiver.c:600-610 | The bytes the copy pass appends are exactly the contents of the entries the size pass recorded if no skipped argument yields bytes, and more than those otherwise. |
| Refinement.InsertRefinesAppend | archive/archiver.c:569-611 | The bytes insert writes are the layout of the old entries followed by the new ones if and only if no skipped argument yields bytes and there is an old entry, or the archive is zero-length, or the unwritten head node holds an offset of at least 4. |
| Refinement.InsertAppendsData | archive/archiver.c:569-611 | Behind a header with entries, or on a zero-length archive, insert keeps all old data, whatever they are, and appends everything the arguments yield. |
| Refinement.ReplaceExact | archive/archiver.c:435-436 | The renamed temporary file is the intended archive if and only if the intended bytes were written and it was not longer before; no other file changes. |
| Refinement.InsertOutcome | archive/archiver.c:402-443 | Which outcome an insert into a stored archive has: no arguments, nothing to store, abort on a stale `errno`, or success. |
| Refinement.InsertCommand | archive/archiver.c:402-443 | A successful insert leaves old plus new entries in the archive file if and only if no leftover, no unwritten offset and no stray bytes of a skipped argument interfere; all other files stay, no temporary file remains. |
| Refinement.RemoveRefinesFilter | archive/archiver.c:759-803 | The bytes remove writes are the layout of the entries whose names are not listed, with fresh offsets. |
| Refinement.RemoveLockstep | archive/archiver.c:778-795 | Survivor i has the same name, size and mask in both lists, and the new file has at the new offset the bytes the old file has at the old one. |
| Refinement.RemoveCommand | archive/archiver.c:759-803 | Remove succeeds on every stored archive for any names, and leaves exactly the other entries if and only if no leftover temporary file was longer. |
| Refinement.InsertKeepsOthers | archive/archiver.c:402-443 | Whatever the outcome of an insert: no path but the archive and the temporary file changes; a failure leaves the archive as it was or created empty with mode 0666; success leaves no temporary file, and the archive has its mode, 0666 if it was new. |
| Refinement.RemoveKeepsOthers | archive/archiver.c:759-803 | The same for remove: without names or without an archive no file changes at all and the failure says which; an unreadable header leaves at most an empty temporary file. |
| Refinement.TemporaryName | archive/archiver.c:404 | The temporary file's name, byte by byte. |
| Laws.NewEntriesNamed | archive/archiver.c:514-564 | Every inserted entry has the base name, the nine permission bits and the contents of one of the regular arguments. |
| Laws.RemoveUndoesInsert | archive/archiver.c:759-803 | On the file system: inserting files whose names do not occur in a non-empty archive, whether or not the insert succeeds, and then removing those names leaves the archive byte for byte as it was, even when skipped arguments left stray bytes. |
| Laws.ReadyOutcome | archive/archiver.c:402-443 | On an archive with any data behind its header, or a zero-length one, insert completes if and only if it stores something and no missing argument meets a zero-length archive; otherwise the archive keeps its bytes. |
| Batches.BatchLaw | archive/archiver.c:402-443 | On the file system: a completed insert of `xs` and then an insert of `ys` leave the same archive as inserting all at once if and only if no argument of `ys` is missing when the archive was zero-length, and `ys` stores something unless it yields no bytes. All offsets are recomputed in between. |
| Batches.SecondStrayIsLost | archive/archiver.c:424-430 | A regular file and then a special file that yields bytes: the second insert stores nothing and writes nothing, and the archive differs from the one of the joint insert. |
| Batches.MissingPathSpoilsJointInsert | archive/archiver.c:451-461 | A regular file and then a missing path, from a zero-length archive: the two inserts leave the file's archive, the joint insert leaves the archive empty. |
| Laws.InsertIntoEmptiedArchive | archive/archiver.c:582-591 | The insert command on a header without records leaves the layout of the new entries if and only if there are none, or the unwritten offset is at least 4 and no skipped argument yields bytes. |
| Laws.StrayBytesSpoilInsert | archive/archiver.c:600-609 | The insert of a special file that yields bytes and a regular file into an empty archive completes, has the stray bytes first in the data region, and does not leave the layout of the one new entry. |
| Laws.AbortLeavesTemporary | archive/archiver.c:451-461 | The insert that aborts on a stale `errno` leaves the archive empty and a temporary file at least as long as the header that was written. |
| Laws.InsertAfterAbort | archive/archiver.c:406 | An insert that completes after such an abort and needs less room than the header that was left does not leave the layout of its entries. |
| Laws.StepRefines | archive/archiver.c:402-443 | Every insert, remove, and change to another file keeps this: the archive file is the layout of the abstract archive, and the temporary file is empty or absent. |
| Laws.RunRefines | archive/archiver.c:402-443 | Whole-run refinement: after any sequence of such steps the archive file is the layout of the abstract archive that appending and filtering build. |
| Laws.RunFromNothing | archive/archiver.c:402-443 | The same from an absent archive: what any run leaves is the layout of storable entries, or a zero-length file for none. |
| Extraction.ExtractRefinesLookup | archive/archiver.c:690-723 | On a stored archive extract writes exactly the chosen entries, all of them when no names are given, from slices that lie inside the file and ahead of what writing over the archive itself could reach. |
| Extraction.ExtractTouchesOnlyNames | archive/archiver.c:706-719 | A path that is no stored name is not touched. |
| Extraction.ExtractLast | archive/archiver.c:706-719 | On any entries, repeated names included: the entry written last under a name comes out with mask and contents if and only if nothing longer was at that name before. |
| Extraction.ExtractSkips | archive/archiver.c:708-714 | A name that cannot be opened, which is a directory, a special file, or a regular file whose mode lacks the bit of value 128, stays as it is through the whole extraction. |
| Extraction.SomeoneWrites | archive/archiver.c:706-719 | Every name that occurs and can be opened has an entry that is written last, so the two results above cover every name. |
| Extraction.ShorterBehindLonger | archive/archiver.c:708 | Of two entries of one name the second, shorter one never comes out. |
| Extraction.ReadOnlyInFront | archive/archiver.c:708-715 | Behind an entry whose mask lacks the bit of value 128, such as 0444, an entry of the same name has no effect. |
| Extraction.ExtractExact | archive/archiver.c:690-723 | The same for the command on a stored archive, with or without names given. |
| Extraction.ExistingFileReplaced | archive/archiver.c:708-717 | On a stored archive: an existing file whose mode has the bit of value 128, and that is not longer, gets the contents and the mask of the one chosen entry of its name. |
| Extraction.ExistingFileStays | archive/archiver.c:708-714 | Without that bit the file stays as it is, contents and mode; so do directories and special files. |
| Extraction.ExtractRoundTrip | archive/archiver.c:690-723 | With distinct names and none of them present, extraction recreates exactly the contents and masks of the chosen entries and touches no other file. |
| Extraction.InsertThenExtract | archive/archiver.c:547-555 | A file that was inserted comes out under its base name with its contents and its permission bits. |
| Archiver.UpdateHeaderForInput | archive/archiver.c:509-567 | On the heap list: appends one record per regular argument, in order, counts them, and reports whether a `stat` failed. |
| Archiver.InsertFilesRoutine | archive/archiver.c:569-611 | Writes header, terminator, old raw data and new raw data, or only the header when the second scan aborts. |
| Archive.CopiedInRange | archive/archiver.c:792-795 | What copying a list of slices writes is exactly the slices when they lie inside the file, wherever the cursor was. |
| Archiver.CopySlices | archive/archiver.c:792-795 | Walking the old list appends one piece per record, of the record's size and beginning with what the file has at its offset. |
| Archiver.FilterBoth | archive/archiver.c:781-783 | Filtering two separate lists and renumbering the first leaves the second with the old offsets. |
| Archiver.RemoveListed | archive/archiver.c:781-800 | From the two lists to the new file, and in the end every node of both, dropped or kept, is freed. |
| Archiver.InsertListed | archive/archiver.c:432-442 | From the extended list to the new file; every node is freed unless the second scan aborts, where the program exits. |
| Archiver.RemoveInto | archive/archiver.c:778-795 | From two reads of the header to the new file: its bytes are the header with fresh offsets and the pieces of the surviving records, for whatever the two scans found in memory. |
| Archiver.Host.InputFiles | archive/archiver.c:402-443 | The insert command on lists and descriptors has exactly the outcome and the file system effect that the theorems above are about, in every branch; in every outcome all other paths stay, and a failure leaves the archive as it was or created empty. |
| Archiver.RunExact | archive/archiver.c:706-719 | Extracting slices that lie inside the archive, in ascending order if the archive itself is overwritten, writes exactly those slices. |
| Archiver.Host.RemoveFiles | archive/archiver.c:759-803 | The same for remove, on every archive: fresh header, one piece per surviving record with all the bytes that exist at its offset. When the slices lie inside the archive this is the effect the theorems above are about. In every outcome all other paths stay; without names or without an archive nothing changes. |
| Archiver.RunTouchesOnlyNames | archive/archiver.c:706-719 | Extraction from any archive touches no path that is no selected name. |
| Archiver.Host.ExtractFiles | archive/archiver.c:690-723 | The same for extract, on every archive: one round per selected record, each skipping a name that cannot be opened or writing a piece with all the bytes that exist at the offset at that time, also over the archive that is being read. |
| ModeSyntax.ParseExact | chmod/mychmod.c:152-330 | The parser returns a derivation exactly when it is a derivation of the string in `[ugoa]* ([-+]([rwx]+\|[ugo]+))* [-+]([rwx]*\|[ugo]*)`; so derivations are unique. |
| ModeSyntax.AcceptsExactly | chmod/mychmod.c:152-330 | Acceptance is membership in that language. |
| ModeSyntax.DocumentedAccepted | chmod/mychmod.c:10 | Of the strings the comment documents, exactly the supported ones are accepted. |
| ModeSyntax.AcceptedDocumented | chmod/mychmod.c:10 | Of the accepted strings, exactly those that copy at most one class per clause are documented. |
| ModeMeaning.ResultMeaning | chmod/mychmod.c:336-382 | Compile and apply gives each chosen permission bit the sign of the last clause that covers it; bits of other classes and bits outside 0777 keep their values. |
| ModeMeaning.LettersAreSets | chmod/mychmod.c:185-205 | Permuting or repeating letters, in front or within a clause, does not change the result for any mode. |
| ModeMeaning.NormalFormExact | chmod/mychmod.c:356-381 | Any clause list acts as `m & ~E \| A` with two masks that do not depend on the mode. |
| ModeMeaning.Idempotent | chmod/mychmod.c:356-381 | Applying a mode string twice equals applying it once. |
| Borrowing.CopyIsNotBorrowing | chmod/mychmod.c:50-52 | `g+u` is accepted, leaves a file that only its owner can read as it is, and would make it readable for the group if it borrowed. |
| Borrowing.CopyBorrowsExactly | chmod/mychmod.c:359-371 | For every accepted string with one copied clause, and every mode: the code borrows if and only if each chosen bit that the clause could change and no later clause overwrites has its class named exactly when it is borrowed. |
| Borrowing.NoCopyNoDifference | chmod/mychmod.c:365-370 | Strings without copied clauses mean the same in both readings, for every mode. |
| Borrowing.LastCopyBorrowsExactly | chmod/mychmod.c:356-381 | For every accepted string with copied clauses, any number of them: the code borrows if and only if the last copied clause leaves every chosen bit that no later clause overwrites alike in both readings. |
| Borrowing.BorrowsThroughout | chmod/mychmod.c:356-381 | In particular the code borrows if each of the copied clauses borrows where it stands. |
| PermList.ParsedMode.AddChangedPerm | chmod/mychmod.c:87-97 | Appends one blank node through the end pointer and keeps the list proper. |
| PermList.ParsedMode.ClearChangedPerm | chmod/mychmod.c:74-85 | Frees every node of the list and leaves it empty. |
| PermList.ChangedPerm.Free | chmod/mychmod.c:80 | Only a node that was not freed before may be freed. |
| PermList.ParsedMode.ApplyModes | chmod/mychmod.c:336-382 | Computes the fold of the clauses, and the group mask it overwrites still chooses the same bits. |
| ModeCompiler.TrackModificator | chmod/mychmod.c:207-243 | After an operator the automaton's next state tracks the parse of the rest, or the string has no derivation. |
| ModeCompiler.TrackLetter | chmod/mychmod.c:245-319 | The same for a letter in a clause, and the flags so far are those of the letters read. |
| ModeCompiler.Chmod.Step | chmod/mychmod.c:157-324 | One round keeps the string, the list built so far and the rest in step, reads on or drops in rank, and never indexes behind the terminating NUL. |
| ModeCompiler.Chmod.RunAutomaton | chmod/mychmod.c:152-330 | Terminates and succeeds on exactly the derivable strings; then the list is the clause list of the derivation and the group mask that of its letters. |
| ModeCompiler.Chmod.ChangeModes | chmod/mychmod.c:102-139 | Every existing file up to the first missing path gets the mode the string means for it, also when it is listed repeatedly; all other files keep theirs. The list is empty at the end and the nodes it had are freed, one for every clause of an accepted string. |
| ModeCompiler.SymbolicMode | chmod/mychmod.c:131 | For a symbolic string nothing that `chmod` would drop is ever computed. |
| ModeCompiler.NewModeTwice | chmod/mychmod.c:115-136 | Handling a file again changes nothing. |
| ModeCompiler.EmptyStringIsZero | chmod/mychmod.c:145-149 | The empty string is no symbolic string, passes for the octal number 0, and clears the twelve mode bits. |
| ModeStrings.AcceptedStrings | chmod/mychmod.c:143-334 | The program accepts exactly the strings of digits `0` to `7` and those made of letters of `ugoa` and clauses of `+` or `-` with letters of `rwx` or of `ugo`, of which only the last may be empty. |
| ModeStrings.OctalMeaning | chmod/mychmod.c:145-149 | Bit b of the mode word becomes bit b mod 3 of the octal digit b / 3 places from the end, for the twelve low bits and values below 2^64, which the digits decide; larger values set all twelve; the other bits stay. |
| ModeStrings.SymbolicMeaning | chmod/mychmod.c:152-382 | A symbolic string gives every bit of a file's mode word the sign of the last clause that covers it, if its class is chosen, and leaves it otherwise. |
| Broadcast.NextKeeps | pthread_mutex/main.c:14-57 | Every step of every thread keeps the lock, counter, string and join invariant, for any number of readers. |
| Broadcast.MutualExclusion | pthread_mutex/main.c:14-57 | In every state of every run at most one thread is in its critical section, and it owns the mutex. |
| Broadcast.PrintedOk | pthread_mutex/main.c:20-27 | Everything that is ever printed is the initial empty string or a number from 1 to 5, never the transient 6, and in the whole output, over all readers, the numbers never decrease. |
| Broadcast.ReaderPrints | pthread_mutex/main.c:18-29 | In every run a reader that takes the mutex and gives it back has printed exactly one line, with the string it found, or none if that was `done`; the string stays the same meanwhile. |
| Broadcast.WriterWrites | pthread_mutex/main.c:39-52 | A writer that takes the mutex and gives it back has counted one further and left the new number, or `done` at six, and printed nothing. |
| Broadcast.OnlyOwnersAct | pthread_mutex/main.c:14-57 | The output grows only in steps of a reader that owns the mutex, the string and the counter change only in steps of a writer that owns it. |
| Broadcast.TransientIsHidden | pthread_mutex/main.c:43-47 | While the string is `num=6` the writer owns the mutex and no reader is in its critical section. |
| Broadcast.DoneIsStable | pthread_mutex/main.c:45-50 | Once `done` is written it stays. |
| Broadcast.DoneDecreases | pthread_mutex/main.c:14-33 | After `done` every step of every thread decreases a natural measure. |
| Broadcast.DoneEnds | pthread_mutex/main.c:14-33 | Hence no run goes on for more steps after `done` than the measure at that point. |
| Broadcast.SomeStep | pthread_mutex/main.c:59-101 | In every reachable state that is not final some thread has a step that decreases the measure. |
| Broadcast.AlwaysCanFinish | pthread_mutex/main.c:59-101 | No deadlock, and a finite path to the final state, from every state of every run. |
| Broadcast.FinalState | pthread_mutex/main.c:89-101 | When `main` returns the counter is 6, the string is `done`, all threads have returned and the mutex is free. |

## Left out

- Archiver.Host.RemoveFiles: leaves open which bytes follow in a piece beyond the end of the archive; `copy_file` writes what its buffer held before. Archives the program wrote have no such records.
- Archiver.Host.ExtractFiles: leaves the same bytes open, and where the cursor stands after the archive was written over itself, which matters only to a record whose offset is 2^63 or more; a different path that leads to the archive is not recognised as the archive.
- Descriptors.CopyFile: reads deliver full blocks unless the file ends, as the source relies on; the copy loops of insert are proved for short reads as well.
- FileInfos.EncodeInfo: integers are written little-endian on every host; the source writes the byte order of the machine.
- HeaderScan.InfoAt: all nodes of one scan find the same bytes in uninitialised memory; these bytes show only in a last record that the file cuts short.
- FileInfos.CString: a name field without a NUL ends after its 256 bytes; the source reads on.
- Commands.ExtractOne: an existing special file of a stored name stays as it is, though a write to it may go somewhere; missing directories of a stored path and permissions of directories are not modelled.
- Commands.ReadBytes: what a special file yields is finite and the same on every read.
- Commands.Create: the umask is 0; new files get the mode 0666 that is asked for.
- Commands.Replace: `remove` and `rename` succeed and no program runs between them; a full disk and failing writes are not modelled.
- Bits: words that are only used bitwise are sets of bit positions.
- ModeCompiler.OctalMode: `strtoul` is its value function, saturating at 2^64 - 1 and cut to 32 bits.
- ModeCompiler.Chmod.ChangeModes: `chmod` itself does not fail; messages are not modelled.
- Broadcast.Next: `sleep`, thread ids, attribute calls, failing `pthread_create` or `pthread_join` and a fair scheduler are left out; each access to shared data is one step.
- `stat_archive`, `hr_file_size`, the print functions and `parse_args` of the archiver: display and flag dispatch.
- `ls`, `cat+grep`, `fork`, `pipe` and `shmem`: line output, an external regex engine and thin wrappers over system calls, which would only add easy members.
