# Verified model of the BAF archive engine

A BAF archive is one file: a header, a chain of file-table segments with fixed-size slots, and the contents of the
files, placed wherever there was room. The engine never rebuilds anything. An operation writes one slot, one 256-byte
name field, one 8-byte pointer or one blob, and then patches by hand the mirror of the table, the listings of the
directories and the allocator. This project models that engine and proves that the disk, the mirror and the
allocator never drift apart.

How to check it: `dafny verify dfyconfig.toml`.

## Layout of the project

| file | contents |
|---|---|
| `Wrappers`, `Bytes`, `Sequences`, `Sorting` | results, little-endian numbers and writes in a byte store, small facts on sequences, sorting |
| `Source`, `Names`, `Text`, `Entries`, `Segments`, `Header` | the byte store with its cursor, UTF-8, and the codecs |
| `Format` | the stored format byte by byte, and what reading arbitrary bytes gives |
| `Coverage`, `Rescan` | the allocator, and the scan that rebuilds it from a table |
| `FileTable`, `Tree`, `Layout` | slots and maps; the directory tree; who owns which bytes of the disk |
| `State`, `Operations`, `Removal` | the invariant `States.Inv`, and one step lemma for each kind of in-place change |
| `Frame` | what a change leaves alone: the other slots, their addresses, and all live bytes but the ones it names |
| `Health`, `Reopen` | the check made on opening, and why an archive that is closed can be opened again |
| `Archive` | the engine itself, as a class whose methods patch its fields and the disk |
| `FileReader` | reading a file in pieces, with its digest |
| `Paths`, `Routes`, `WithPaths`, `WithPathsMut` | path strings, what they lead to, and the operations by path |
| `Listing`, `ListingOrder`, `Iter`, `ContentTree` | the recursive listing and its order, the lazy iterator and the printed tree |
| `FileSystem`, `Script` | a plain file system made of maps, with its answers, and whole runs of commands on an archive |

`States.Inv` says of a state: every segment is stored at its address and all but the last point to a next one; the
maps `dirs` and `files` are exactly the filled slots, with one slot for each identifier; parents exist and are older
than their children, names differ within a directory, and no identifier is used twice; the listings are the items
grouped by parent; header, segments and non-empty blobs are pairwise disjoint, lie inside the archive, and are
exactly what the allocator tracks; and each file carries the digest of its bytes. `Archives.Archive.Valid` is this
invariant of the fields of the object. Every operation keeps it, so it holds in every state that can be reached.

The main results:

- `Scripts.Run` and `Scripts.RunNew`: any sequence of commands, by identifier or by path, on a valid or a new archive,
  closing and opening again included, keeps the invariant, does to the archive what it would do to a plain file system
  made of maps (`FileSystems.Perform`), and gives the same answers: identifiers, contents and errors.
- `Archives.Reopen`: the bytes of a valid archive always open, and give back the same table, listings and allocator.
- The contracts of `Archives.Archive`: each operation's effect on directories, files and *all* file contents, and its
  frame (`Frames`): every other item keeps its slot and its address, and the only live bytes written are one entry, or
  one name field, and the next pointer of the last segment when a segment is added.
- `PathWriting.WithPathsMut.WriteFileAt`: a failed write by path changes nothing, a successful one changes only the
  file and its missing parents, and no path that led to an item stops doing so.
- `Routes.ResolvesToItem`: following names down and climbing parents up are inverse to each other.
- `Iterators.ArchiveIter.Collect` with `Listings.WholeListing` and `ListingOrders.ListingUnique`: the lazy iterator
  yields each live item once, in the one order that puts items before what is below them, directories before files and
  names ascending; `ContentTrees.TreeShowsListing`: the printed tree has the same order.
- `Formats.ArchiveFormat`: every byte of the table of a valid archive is where the format puts it; with
  `Formats.SegmentDecoded` and `Reopening.WalkFinds`, what is read from arbitrary bytes is fixed as well.
- `FileReaders.FileReader.ReadToVec`: a content is given out exactly if its digest is the recorded one.

## Model

| member | source | states |
|---|---|---|
| Bytes.LittleEndianRoundTrip | crate-lib/src/source.rs:130-146 | integers survive their little-endian bytes |
| Sources.Source.ReadExact | crate-lib/src/source.rs:25-30 | an exact read returns the bytes under the cursor and moves it, or fails at the end of the store; where the cursor is after a failure is left open |
| Sources.Source.WriteAll | crate-lib/src/source.rs:92-95 | a write replaces the bytes under the cursor, extends the store if needed, and keeps every other byte |
| Sources.Source.SeekLen | crate-lib/src/source.rs:70-80 | gives the length of the store and leaves the cursor where it was |
| Names.ValidNameRules | crate-lib/src/data/name.rs:16-38 | a name is valid exactly if it has 1 to 255 bytes, is not `.` or `..`, and has no slash, backslash, line break or null character |
| Names.NewName | crate-lib/src/data/name.rs:11-14 | a string becomes a name, unchanged, exactly if it is valid |
| Names.NewNameRefused | crate-lib/src/data/name.rs:16-38 | a string that is no name is refused for the first rule that it breaks, in the order of the checks |
| Names.NameLeqMeans | crate-lib/src/iter.rs:32-32 | names compare as strings do: a prefix first, else by the first byte that differs |
| Texts.Utf8IffText | crate-lib/src/data/name.rs:47-69 | the bytes taken for UTF-8 are exactly the encodings of sequences of Unicode scalar values |
| Names.NameRoundTrip | crate-lib/src/data/name.rs:47-81 | decoding the field of a name gives the name |
| Names.NamePaddingIgnored | crate-lib/src/data/name.rs:47-69 | decoding looks at no byte behind the announced length |
| Names.FillNameField | crate-lib/src/data/name.rs:71-81 | the array filled in place is the encoded field |
| Entries.DirRoundTrip | crate-lib/src/data/directory.rs:40-106 | a directory entry read from where it was stored is the entry, and takes 280 bytes |
| Entries.FileRoundTrip | crate-lib/src/data/file.rs:46-136 | a file entry read from where it was stored is the entry, and takes 328 bytes |
| Entries.EmptySlotsRoundTrip | crate-lib/src/data/ft_segment.rs:105-117 | zeroed slots read as empty slots |
| Entries.ConsumeDirectory | crate-lib/src/data/directory.rs:40-80 | the field-by-field reader decodes the entry under the cursor, with its errors, and skips empty slots whole |
| Entries.ConsumeFile | crate-lib/src/data/file.rs:46-104 | the same for a file entry |
| Entries.RenameInPlace | crate-lib/src/archive.rs:489-498 | writing 256 bytes at offset 16 of a stored entry gives the entry of the renamed item |
| Segments.EncodedSize | crate-lib/src/data/ft_segment.rs:163-166 | a segment is encoded in exactly the announced number of bytes |
| Segments.SegmentRoundTrip | crate-lib/src/data/ft_segment.rs:28-120 | a segment with any mix of empty and filled slots is decoded from its encoding, wherever it is stored |
| Segments.DirSlotAt | crate-lib/src/data/ft_segment.rs:122-128 | each directory slot lies at its computed offset |
| Segments.FileSlotAt | crate-lib/src/data/ft_segment.rs:130-139 | each file slot lies at its computed offset |
| Segments.PatchDirSlot | crate-lib/src/archive.rs:334-348 | writing one directory slot in place gives the encoding of the segment with that slot changed |
| Segments.PatchFileSlot | crate-lib/src/archive.rs:394-404 | writing one file slot in place gives the encoding of the segment with that slot changed |
| Segments.PatchNext | crate-lib/src/archive.rs:777-784 | writing the 8 bytes of the next pointer gives the encoding of the linked segment |
| Segments.Encode | crate-lib/src/data/ft_segment.rs:92-120 | the byte vector that the loops extend is the encoding |
| Segments.Decode | crate-lib/src/data/ft_segment.rs:28-89 | the loops over the slots decode what is under the cursor, or report the first broken entry with its address |
| Headers.HeaderAcceptedIffEncoded | crate-lib/src/data/header.rs:22-79 | a store is accepted exactly if it starts with the encoded header |
| Headers.Decode | crate-lib/src/data/header.rs:22-66 | reads the header, with the error of the first field that is wrong |
| Formats.ArchiveFormat | docs/specs.md:9-38 | the disk of a valid archive, byte by byte: magic number, version and zeroes; from address 256 the chain of segments with all fields little-endian at their offsets; each content where its entry says, with the digest that the entry has |
| Formats.EncodedFile | crate-lib/src/data/file.rs:106-136 | the seven fields of a file entry lie at 0, 8, 16, 272, 280, 288 and 296 |
| Formats.EncodedSegment | crate-lib/src/data/ft_segment.rs:92-120 | pointer, capacities and slots of an encoded segment lie at their offsets, and empty slots are zeroes |
| Formats.HeaderDecoded | crate-lib/src/data/header.rs:22-66 | what reading any bytes as a header gives, with the error of the first field that is wrong |
| Formats.NameDecoded | crate-lib/src/data/name.rs:47-69 | what reading any 256 bytes as a name gives: the announced bytes, or why they are no name |
| Formats.DirDecoded | crate-lib/src/data/directory.rs:40-80 | what reading any bytes as a directory slot gives |
| Formats.FileDecoded | crate-lib/src/data/file.rs:46-104 | what reading any bytes as a file slot gives |
| Formats.SegmentDecoded | crate-lib/src/data/ft_segment.rs:28-89 | what reading any bytes as a segment gives: every slot, or the first that cannot be read, with its address and its error |
| Coverages.MarkingAllowedIffDisjoint | crate-lib/src/coverage.rs:32-46 | a zone overlaps nothing exactly if the assertions pass and it does not begin inside a zone other than the first |
| Coverages.AssertionsMissAnOverlap | crate-lib/src/coverage.rs:37-43 | with the header and one segment tracked, both assertions let through a zone that lies inside that segment, as the zone on the left is always the first one |
| Coverages.Coverage.MarkAsUsed | crate-lib/src/coverage.rs:32-46 | adds a non-empty zone to the ordered set, an empty one not |
| Coverages.Coverage.MarkAsFree | crate-lib/src/coverage.rs:51-57 | removes exactly that zone, and tells if it was tracked |
| Coverages.FreeSegmentsIter.Next | crate-lib/src/coverage.rs:122-162 | the loop yields the next free zone, and its assertion never fails on a packed coverage |
| Coverages.FreeZonesPartition | crate-lib/src/coverage.rs:122-162 | each address is used or free and never both |
| Coverages.FreeZonesMaximal | crate-lib/src/coverage.rs:122-162 | a free zone ends where a used one begins or where the archive ends: no gap is cut in two |
| Coverages.FreeZonesAreGaps | crate-lib/src/coverage.rs:122-162 | the free zones are exactly the longest runs of addresses that nothing uses |
| Coverages.FreeZonesConserveSpace | crate-lib/src/coverage.rs:122-162 | used and free lengths sum to the length of the archive |
| Coverages.Coverage.FindFreeZoneFor | crate-lib/src/coverage.rs:66-70 | a smallest sufficient gap, at the lowest address, and nothing only if no gap is large enough |
| Coverages.Coverage.NextWritableAddr | crate-lib/src/coverage.rs:73-78 | the lowest address with nothing used behind it |
| Coverages.BestPlaceMeans | crate-lib/src/archive.rs:719-722 | the best place, said of addresses alone: the start of the smallest sufficient run of unused addresses, the first of that size, or the end of all that is used |
| Rescans.MarkAllDisjoint | crate-lib/src/archive.rs:1040-1056 | marking pairwise disjoint zones never trips an assertion and tracks exactly these zones |
| Rescans.ComputeCoverage | crate-lib/src/archive.rs:1040-1056 | the scan marks header, segments and blobs of a table in order |
| Layouts.SlotWritten | crate-lib/src/archive.rs:335-348 | a slot write touches no other segment, header or blob, and leaves the table stored at its addresses |
| Layouts.SegmentLinked | crate-lib/src/archive.rs:756-787 | linking a stored segment leaves the longer chain stored at its addresses |
| Layouts.BlobFreed | crate-lib/src/archive.rs:435-440 | freeing the zone of one file leaves exactly the zones of the others tracked |
| Layouts.BlobAdded | crate-lib/src/archive.rs:746-750 | a blob in a free zone keeps all zones disjoint and tracked |
| States.AllocatorReady | crate-lib/src/archive.rs:719-750 | on a valid archive the allocator matches the disk, and no free byte lies in the header, so no segment is ever placed at the null address |
| States.CreatedInv | crate-lib/src/archive.rs:262-305 | a header and an empty segment make a valid archive, whatever the store held before |
| States.SlotStep | crate-lib/src/archive.rs:310-354 | changing one slot with its bytes, maps and listings keeps the invariant and every content |
| States.FileStep | crate-lib/src/archive.rs:359-466 | storing a blob in a free zone and then its entry keeps the invariant and changes one content |
| States.RemoveFileStep | crate-lib/src/archive.rs:611-645 | zeroing the slot of a file and freeing its zone keeps the invariant and all other contents |
| States.SegmentStep | crate-lib/src/archive.rs:756-787 | adding and linking a segment keeps the invariant and every content |
| Trees.TreeInsert | crate-lib/src/archive.rs:338-351 | the listings patched for a new item are the grouping of the new maps |
| Trees.TreeUpdate | crate-lib/src/archive.rs:500-504 | the names patched for a renamed item are those of the new maps |
| Trees.TreeRemove | crate-lib/src/archive.rs:587-604 | the listings patched for a removed item are the grouping of the maps that are left |
| Frames.ExtensionFrame | crate-lib/src/archive.rs:756-787 | a segment written into free space and linked moves no slot, and writes no live byte but the 8 of the last next pointer |
| Frames.CreateDirFrame | crate-lib/src/archive.rs:310-354 | the entry of a new directory is the only live zone written, in an empty slot, whether the table was extended before or not |
| Frames.StoreFileFrame | crate-lib/src/archive.rs:359-466 | storing a content and its entry writes free bytes, the zone that the old content left, and the entry, and no other live byte |
| Frames.RenameFrame | crate-lib/src/archive.rs:489-498 | a rename writes the name field in the slot of the item, and no other byte of the disk, free or used |
| Frames.RemoveFileFrame | crate-lib/src/archive.rs:611-645 | a removal of a file writes its entry, and no other byte of the disk |
| Archives.Archive.Create | crate-lib/src/archive.rs:262-305 | a new archive is valid and empty, with one segment of the configured size |
| Archives.Archive.Open | crate-lib/src/archive.rs:57-126 | follows the chain, reports a broken header or segment, and succeeds exactly if the table is healthy; otherwise it returns exactly the errors of the check; what it rebuilds is what the bytes say |
| Archives.ReadChain | crate-lib/src/archive.rs:67-91 | the walk along the next pointers, in order, with their addresses |
| Reopening.WalkFinds | crate-lib/src/archive.rs:67-91 | the table found is the chain that the stored pointers make from the first segment on, and the error is that of the first segment on the way that is broken |
| Reopening.LastFileKept | crate-lib/src/archive.rs:97-102 | of several file entries with one identifier the last one is kept |
| Archives.Archive.GetDirContent | crate-lib/src/archive.rs:170-184 | the children of an existing directory, as sets |
| Archives.Archive.ReadDir | crate-lib/src/archive.rs:189-208 | the items whose parent is the directory, each once, directories first, none missing |
| Archives.Archive.ReadFile | crate-lib/src/archive.rs:219-229 | a reader placed on the content of the file with its length and digest; on a valid archive it will give that content |
| Archives.Archive.ReadFileToVec | crate-lib/src/archive.rs:232-235 | on a valid archive the content of the live file; on any archive, damaged or not, the stored bytes exactly if their digest is the recorded one, else a checksum or I/O error |
| Archives.CopyChunks | crate-lib/src/archive.rs:727-744 | the 4096-byte loop stores and hashes the whole input |
| Archives.Archive.WriteDataWherePossible | crate-lib/src/archive.rs:713-753 | writes the data into the best gap, or behind everything if none is large enough; the zone overlaps no tracked one, is tracked from then on, and the archive grows only by what does not fit |
| Archives.Archive.SegmentAddress | crate-lib/src/archive.rs:663-673 | in a valid archive the segment is what is stored at the address kept in the previous one, or behind the header |
| Archives.Archive.GetItemEntry | crate-lib/src/archive.rs:675-710 | finds the slot of every live item, with its address, and of no other |
| Archives.Archive.LastFreeSlot | crate-lib/src/archive.rs:793-828 | finds a free slot exactly if there is one, with its address; no slot of the kind is free behind it |
| Archives.Archive.GetAddrForItemInsert | crate-lib/src/archive.rs:789-852 | always gives an empty slot: the last free one, with nothing changed, or the first one of a new segment of the configured size in the best place, with every item kept in its slot and at its address |
| Archives.Archive.CreateSegment | crate-lib/src/archive.rs:756-787 | adds one segment of empty slots in the best place; all slots keep their items and addresses, every content stays, and no live byte but the next pointer of the last segment is written |
| Archives.Archive.EnsureNoDuplicateName | crate-lib/src/archive.rs:854-881 | succeeds exactly if the parent is the root or a live directory and no item in it has the name; else says which of the two is wrong |
| Archives.Archive.CreateDir | crate-lib/src/archive.rs:310-354 | on success exactly one directory more, under the next identifier, in the last free slot, or in the first one of a segment that is added, in the best place, exactly if no slot was free; contents, other slots and live bytes stay; on failure nothing has changed |
| Archives.Archive.CreateFile | crate-lib/src/archive.rs:359-411 | on success exactly one file more, in the slot chosen as for a directory, with the given content and its digest in the best place once that slot is there; contents, other slots and live bytes stay; on failure nothing has changed |
| Archives.Archive.ReplaceFileContent | crate-lib/src/archive.rs:415-467 | the file reads back the new content, every other file its old one, although the freed zone may be used again at once; the entry stays in its slot, the place is the best one once the old zone is free, and no live byte outside the entry and the old zone is written |
| Archives.Archive.RenameDirectory | crate-lib/src/archive.rs:470-507 | only the name changes, and of the whole disk only the 256 bytes of the name field in the slot of the directory; a name in use is refused and changes nothing |
| Archives.Archive.RenameFile | crate-lib/src/archive.rs:510-543 | the same for a file |
| Archives.Archive.RemoveFile | crate-lib/src/archive.rs:611-645 | exactly one file goes, its zone is free again, and of the whole disk only its entry is written |
| Archives.Archive.RemoveDir | crate-lib/src/archive.rs:548-606 | terminates; exactly the directory and what is below it go; everything else keeps its slot, entry and bytes; the address found before the recursive calls and the final emptiness assertions hold |
| Archives.Archive.RemoveEmptyDir | crate-lib/src/archive.rs:576-605 | the slot address found before the recursion is still that of the directory |
| Removals.UnderIffUnderChild | crate-lib/src/archive.rs:560-574 | being below a directory is being that directory or below one of its children |
| Removals.PruneMore | crate-lib/src/archive.rs:567-569 | removals one after the other remove what is below any of the directories |
| Removals.PruneTop | crate-lib/src/archive.rs:567-605 | removing the children, then the files, then the entry removes exactly what is below the directory |
| Health.CheckFileTableCorrectness | crate-lib/src/health.rs:10-81 | accepts exactly if directory identifiers differ, file identifiers differ within each parent, and names differ within each parent; the map is the grouping by parent with an entry for the root and each directory; otherwise it gives every error, in order |
| Health.ErrorsAreClashes | crate-lib/src/health.rs:10-81 | each error is about an item that repeats the identifier or the place of an earlier one, and each such item is reported |
| Reopening.NextIdAfter | crate-lib/src/archive.rs:107-113 | one above the largest identifier, or 1 |
| Reopening.HealthyTable | crate-lib/src/health.rs:10-81 | the table of a valid archive passes the check |
| Reopening.RescanAgrees | crate-lib/src/archive.rs:1040-1056 | the allocator kept up to date by hand equals the one that a rescan computes: nothing leaks, nothing is freed twice |
| Reopening.ReopenSucceeds | crate-lib/src/archive.rs:57-126 | the disk of a valid archive opens |
| Reopening.ReopenRestores | crate-lib/src/archive.rs:57-126 | what opening rebuilds is the state before closing, but for a counter that may be smaller and stays above every live identifier |
| Archives.Reopen | crate-lib/src/archive.rs:57-126 | closing and opening gives a valid archive with the same disk, table, maps, listings and allocator |
| FileReaders.FileReader.Read | crate-lib/src/file_reader.rs:55-88 | fills the buffer with the next bytes and moves on by that many; before the end no mismatch is reported, and the read that reaches the end succeeds exactly if the digest of the whole content is the expected one; nothing is promised about the reader once the store has turned out too short |
| FileReaders.FileReader.ReadInChunks | crate-lib/src/file_reader.rs:55-88 | for any buffer sizes: short of the end the next bytes and no mismatch; at the end all that was left exactly if the digest is the expected one, else a mismatch; on a truncated store a prefix and an I/O error |
| FileReaders.FileReader.ReadToVec | crate-lib/src/file_reader.rs:39-44 | from wherever the reader stands: nothing at the end; else all that is left exactly if the digest of the whole content is the expected one, a mismatch if it is not, an I/O error if the store is too short |
| FileReaders.AdvancedIsSum | crate-lib/src/file_reader.rs:57-75 | how far reads get depends on the sum of the buffer sizes alone |
| Paths.JoinOfSplit | crate-lib/src/data/path.rs:27-27 | the components joined by slashes are the string |
| Paths.SplitOfJoin | crate-lib/src/data/path.rs:130-137 | joined components are split where they were joined |
| Paths.AcceptedIff | crate-lib/src/data/path.rs:20-56 | a path is accepted exactly if it is not empty, its components other than the empty one, `.` and `..` are valid names, and no prefix has more `..` than names; the result has only components of the path, as many as the balance says |
| Paths.RefusedAtFirst | crate-lib/src/data/path.rs:20-56 | a path is refused for its first bad component: a `..` where the names before it are used up, or one that is no name, with the reason |
| Paths.NothingSaid | crate-lib/src/data/path.rs:29-33 | empty components and `.` can be left out, wherever they stand |
| Paths.ParentCancels | crate-lib/src/data/path.rs:36-40 | a name followed by `..` cancels out, wherever it stands |
| Paths.PathRoundTrip | crate-lib/src/data/path.rs:130-137 | parsing the display of a path gives the path |
| Paths.PathInArchive.New | crate-lib/src/data/path.rs:20-56 | the loop with its stack computes the normal form, or the first error |
| Paths.PathInArchive.Pop | crate-lib/src/data/path.rs:101-103 | takes the last component off, if there is one |
| Paths.PathInArchive.Display | crate-lib/src/data/path.rs:130-137 | the components with single slashes between them |
| Routes.ResolvesToItem | crate-lib/src/with_paths.rs:31-120 | names lead from the root to an item exactly if they are the names found by climbing from that item |
| Routes.DeadEnd | crate-lib/src/with_paths.rs:104-109 | nothing lies behind a file or a missing component |
| PathReading.WithPaths.ComputeItemPath | crate-lib/src/with_paths.rs:31-69 | climbing ends, and gives the names from the root down to the item, joined by slashes |
| PathReading.WriteDown | crate-lib/src/with_paths.rs:52-69 | the text, which has exactly the predicted length |
| PathReading.WithPaths.ComputeDirPath | crate-lib/src/with_paths.rs:72-79 | the path of a live directory, and an error for any other identifier |
| PathReading.WithPaths.ComputeFilePath | crate-lib/src/with_paths.rs:82-89 | the path of a live file, and an error for any other identifier |
| PathReading.WithPaths.GetItemAt | crate-lib/src/with_paths.rs:92-120 | the item that the normalised names lead to, or nothing |
| PathReading.WithPaths.GetDirAt | crate-lib/src/with_paths.rs:125-130 | the directory at the path, and nothing for the root or a file |
| PathReading.WithPaths.GetFileAt | crate-lib/src/with_paths.rs:135-140 | the file at the path, and nothing for a directory |
| PathReading.PathLeadsBack | crate-lib/src/with_paths.rs:31-120 | looking up the computed path of a live item finds that item |
| PathReading.PathIsNormalised | crate-lib/src/with_paths.rs:31-120 | the computed path of what is found at a path is that path, normalised |
| PathWriting.WithPathsMut.GetOrCreateDirAt | crate-lib/src/with_paths_mut.rs:60-102 | succeeds exactly if no file is in the way; then only missing directories of the path are new; otherwise nothing has changed, and the error is that of the path, or names the directory that holds the file in the way |
| PathWriting.FoundSoUnchanged | crate-lib/src/with_paths_mut.rs:66-96 | a component that is found was there before: once one is created, all later ones are missing, so no collision can follow a creation |
| PathWriting.WithPathsMut.CreateDirAt | crate-lib/src/with_paths_mut.rs:39-55 | succeeds exactly if nothing is at the path and no file is in the way; then the path leads to the new directory; otherwise nothing has changed; the answer, the error included, is that of the file system of maps, and no more identifiers and room are used than the path has components |
| PathWriting.WithPathsMut.WriteFileAt | crate-lib/src/with_paths_mut.rs:119-145 | succeeds exactly if the path is writable; then it leads to a file with the content and time, all other files and contents are unchanged, only missing parents are new, and all old paths still lead to their items; otherwise nothing has changed |
| PathWriting.WithPathsMut.CreateFileAt | crate-lib/src/with_paths_mut.rs:150-163 | the same, and refuses a path where a file is with `FileAlreadyExists` |
| PathWriting.WithPathsMut.UpdateFileAt | crate-lib/src/with_paths_mut.rs:166-179 | succeeds exactly if a file is at the path, and else answers `FileNotFound`, or that the root is not a file; the room used is bounded as for a write |
| PathWriting.WithPathsMut.RemoveDirAt | crate-lib/src/with_paths_mut.rs:105-116 | removes exactly the directory at the path with what is below it, or changes nothing |
| PathWriting.WithPathsMut.RemoveFileAt | crate-lib/src/with_paths_mut.rs:182-195 | removes exactly the file at the path, with all other slots, the size and the counter as before, or changes nothing and says what is wrong |
| PathWriting.WithPathsMut.ReadFileAt | crate-lib/src/with_paths_mut.rs:23-34 | a reader that will give the content of the file at the path |
| PathWriting.WriteThenRead | crate-lib/src/with_paths_mut.rs:23-145 | what was written at a path is what is read there |
| Sorting.OrderUnique | crate-lib/src/iter.rs:32-32 | the result of sorting does not depend on the order in which a hash set gave its elements |
| Listings.ListingMembers | crate-lib/src/iter.rs:52-94 | the listing of a directory holds exactly the items below it |
| Listings.ListingDistinct | crate-lib/src/iter.rs:52-94 | no item is listed twice |
| Listings.WholeListing | crate-lib/src/archive.rs:241-257 | from the root, every live item exactly once |
| Listings.WithinIsUnder | crate-lib/src/iter.rs:52-94 | lying below a directory means the same for the listing as for the removal |
| Listings.RemovalTakesListing | crate-lib/src/archive.rs:548-606 | removing a directory takes exactly the directory and the items of its listing |
| Listings.ParentBeforeChild | crate-lib/src/archive.rs:241-254 | no item comes before the directory that it is in |
| ListingOrders.ListingInOrder | crate-lib/src/archive.rs:241-254 | in a listing an item precedes what is below it, and of two siblings the directory, or else the smaller name, comes first with all that is below it |
| ListingOrders.PrecedesOneWay | crate-lib/src/archive.rs:241-254 | this order never puts two live items both ways |
| ListingOrders.ListingUnique | crate-lib/src/archive.rs:241-254 | the listing is the only sequence of its items in this order |
| Iterators.ArchiveIter.New | crate-lib/src/iter.rs:19-46 | what is still to come is the whole listing of the directory |
| Iterators.ArchiveIter.Next | crate-lib/src/iter.rs:52-94 | the nested state machine yields the first item still to come, and nothing once there is none |
| Iterators.ArchiveIter.Collect | crate-lib/src/iter.rs:52-94 | calling the iterator until it ends terminates and gives the listing, which is in tree order: an item before what is below it, directories before files, names ascending byte by byte |
| ContentTrees.Build | crate-bin/src/tree.rs:14-41 | the tree that is built and sorted is the tree of the archive, whatever order the hash sets give |
| ContentTrees.BuildDirNode | crate-bin/src/tree.rs:45-75 | the same for one directory |
| ContentTrees.TreeShowsListing | crate-bin/src/tree.rs:14-75 | from top to bottom the tree has the names and kinds that the iterator yields |
| FileSystems.AdmitIsNameCheck | crate-lib/src/archive.rs:854-881 | the file system of maps refuses a name, and with the same error, exactly when the archive does |
| FileSystems.FindIsResolve | crate-lib/src/with_paths.rs:92-120 | a path leads to the same item in the file system of maps as in the archive |
| Scripts.ExecuteByPath | crate-lib/src/with_paths_mut.rs:23-195 | each operation by path is a step of the file system of maps, with the same answer, within the room announced for it |
| Scripts.Execute | crate-lib/src/archive.rs:310-645 | each operation is a step of the file system of maps, with the same answer, failures included, and within the room announced for it |
| Scripts.Run | crate-lib/src/archive.rs:57-645 | any run keeps the invariant, ends with the view that the steps give, and gives their answers |
| Scripts.RunNew | crate-lib/src/archive.rs:262-645 | the same for every run that starts by creating an archive, from the empty file system |

## Left out

- Failures of the underlying store: a `Source` is a cursor over bytes that fails only on short reads; what is left behind by a failing write is not specified by the code. Buffering and flushing are not modelled, and exact reads return the bytes instead of filling a buffer.
- Archives.Archive.Open: requires that the chain of a store with a valid header ends, that its zones do not trip the assertions of the allocator, and that the largest identifier of a healthy table is below 2^64 - 1, because the code would loop or abort there. What the health check accepts, and what it reports, is characterised for every table.
- The answers of `Scripts.Run`: a removal answers only that it is done, where the code also returns the entry that is gone (`Archives.Archive.RemoveFile` and `RemoveDir` state it), and directory listings are not among the commands.
- The counter of identifiers and all addresses stay below 2^64: operations require room for what they may create, a new segment included, as the code panics when a number does not fit.
- SHA3-256 is an arbitrary function of the bytes; the chunks are collected and hashed at the end, where the code feeds them one by one.
- The clock: `Timestamp::now` for directories that are created on the way is a function from identifiers to times.
- Archives.ReadChain: requires that the chain ends, for the same reason.
- Reading a file as text (`read_to_string`), `flush`, opening from a file path, `read_dir_at`, `from_components`, `parent`, `filename` and the `join` variants: easy once the rest is there.
- Texts of error messages. The errors themselves and their data are modelled, except that conversions between error types are not nested as in the code.
- The command line, logging, walking the file system, ZIP conversion, time formatting and the rendering of the tree (`crate-bin`).
- The header is padded with 244 zero bytes, as the code does; docs/specs.md speaks of 250.
- The assertions of `mark_as_used` do not rule out every overlap (`Coverages.AssertionsMissAnOverlap`); that zones never overlap is proved from the callers instead.
- Archives.Reopen: restores everything but the counter of identifiers, because the code starts again one above the largest live one; an identifier that was removed may be given again.
- Empty files own no zone and their digest is never checked on reading; `FileReaders.FileReader.ReadToVec` says so.
- Iteration over hash sets is modelled by lists in an arbitrary order, and sorting by insertion; only the sorted result is relied upon.
- The bodies of `open`, `create_segment`, `create_dir`, `create_file`, `remove_dir`, the renamings, `get_or_create_dir_at`, `write_file_at`, the health check, the iterator and the building of the tree are split into several methods each.
