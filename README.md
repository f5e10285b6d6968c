# BinaryFileMetadata in Dafny

A model of the core of BinaryFileMetadata, a container that keeps many files inside one binary file.

**Storage.**
- A file copied in is cut into chunks of a fixed block size.
- Each chunk goes into a deduplicating block index: a block whose hash ("blk" followed by a polynomial sum of its bytes modulo 1000000007) is already present gets its reference count raised, and a new one is appended with count 1.
- The file is remembered as a file record: its full path and the ids (positions) of its blocks, in order.
- Copying a file out concatenates its blocks.
- Removing a file decrements each of its blocks and drops the record. A block whose count reaches zero is deleted, and the block list closes up.
- After every change the container rewrites its file. The layout is: the block size, the block index, the record count, then each record. Integers are 32-bit little-endian; strings are a length followed by their UTF-8 bytes.

**Directory tree.**
- On top of the container, a directory manager keeps an in-memory tree of directory entries.
- At start-up it rebuilds the tree from the stored full paths.
- It runs the shell's commands: make, change, remove and list directories, and copy in, copy out and remove files in the current directory.

**Helpers.** The code's own collections and string helpers are modelled as well: a growable list, a bucketed hash map, and Split, IndexOf, Substring, CustomHash and FormatFileListing.

**How each part is modelled.**
- The classes whose fields the code updates are Dafny classes: the block index, the records, the container, the list, the hash map, the directory entries and the manager.
- Each class method is proved against a function on values:
  - `ContainerModel.State` with `Ingest`, `Extract`, `FileSize`, `Remove`, `EncodeContainer` and `LoadAsWritten`;
  - `Blocks.AddBlockSpec` and `DecrementSpec` for the block index;
  - `StringImplementations.SplitSpec` for Split;
  - `DirectoryManagers.Lookup` and `ChangeTarget` for the directory tree.
- Lemmas prove what the code's comments and callers rely on:
  - a stored file copies out as its bytes;
  - a file's size is the length of what copies out;
  - a saved container loads back as itself;
  - reference counts equal the number of references;
  - every stored path appears in the rebuilt tree;
  - the path a command builds splits back into its directory and name.

Where the code is lenient, the model follows it:
- copying in a path that is already stored appends a second record;
- a missing file on removal changes nothing and reports nothing;
- a negative block size fails only when bytes are copied in.

The classes do what the code does, including the two places where it misbehaves. These are listed under Findings. Beside each is the corrected behaviour with its property proved: `ContainerModel.RemoveRenumbered`, which `FileSystemContainer.RemoveFileRenumbered` carries out in place, and `ContainerModel.Load`.

## Model

| member | source | states |
|---|---|---|
| Wire.Int32RoundTrip | BinaryFileMetadata/CustomDataStructs/BlockIndex.cs:67-80 | every 32-bit integer written little-endian reads back as itself |
| Wire.ReadInt32Of | BinaryFileMetadata/CustomDataStructs/BlockIndex.cs:80 | ReadInt32 returns the written value and leaves exactly the bytes that followed it |
| Wire.ReadInt32 | BinaryFileMetadata/CustomDataStructs/BlockIndex.cs:80 | a read succeeds exactly when four bytes are left, gives a 32-bit value and consumes four bytes |
| Wire.ReadBytes | BinaryFileMetadata/CustomDataStructs/BlockIndex.cs:85 | a negative count fails; otherwise the bytes read and the rest give back the stream, with a short stream giving what is left |
| Wire.Wrap32 | BinaryFileMetadata/CustomDataStructs/BlockIndex.cs:33 | unchecked int arithmetic yields a 32-bit value, and a value already in range is kept |
| Wire.TruncRem | BinaryFileMetadata/StringImplementations.cs:63 | C#'s remainder: the dividend's sign, smaller than the divisor in size, and differing from the dividend by a multiple of the divisor, which together fix its value |
| Wire.CharUtf8 | BinaryFileMetadata/CustomDataStructs/BlockIndex.cs:110 | one to four UTF-8 bytes per character, one exactly for ASCII, which is the character's code |
| Wire.Utf8Bytes | BinaryFileMetadata/CustomDataStructs/BlockIndex.cs:110 | the encoding is at least as long as the string, and equally long exactly for ASCII text |
| Wire.AsciiDecode | BinaryFileMetadata/CustomDataStructs/BlockIndex.cs:117 | bytes below 128 decode one character per byte with the same codes; any other byte is outside the model |
| Wire.AsciiDecodeUtf8 | BinaryFileMetadata/CustomDataStructs/BlockIndex.cs:107-118 | decoding the UTF-8 bytes of ASCII text gives the text back |
| Wire.ReadStringOf | BinaryFileMetadata/CustomDataStructs/BlockIndex.cs:107-118 | an ASCII string written by WriteString is read back by ReadString, leaving what followed |
| Wire.ReadManyOf | BinaryFileMetadata/FileSystemContainer.cs:45-51 | a counted loop of reads over items written one after another gives back the same list |
| Wire.NonAsciiStringMisread | BinaryFileMetadata/CustomDataStructs/FileRecord.cs:38-50 | a non-ASCII string is written with its character count, which is short of its byte count, so it does not read back |
| Numerals.NatToStringValue | BinaryFileMetadata/CustomDataStructs/BlockIndex.cs:104 | the decimal text of a number denotes that number |
| Numerals.NatToStringInjective | BinaryFileMetadata/CustomDataStructs/BlockIndex.cs:104 | two numbers with the same decimal text are equal |
| Numerals.NatToStringLength | BinaryFileMetadata/StringImplementations.cs:83 | a number has at most k digits exactly when it is below 10^k |
| Numerals.IntToStringLength | BinaryFileMetadata/StringImplementations.cs:83 | a signed number's text fits in k characters exactly when -10^(k-1) < x < 10^k |
| StringImplementations.CustomCompare | BinaryFileMetadata/CustomDataStructs/BlockIndex.cs:18 | the comparison the code calls gives -1, 0 or 1, and 0 exactly for equal strings |
| StringImplementations.IndexOf | BinaryFileMetadata/StringImplementations.cs:36-46 | the first position of the character, or -1 exactly when it does not occur |
| StringImplementations.Substring | BinaryFileMetadata/StringImplementations.cs:48-56 | fails exactly when the length is negative or a read falls outside the input; otherwise it is the slice, and "" for length 0 |
| StringImplementations.Split | BinaryFileMetadata/StringImplementations.cs:5-34 | the two-pass array algorithm gives the reference split of the input |
| StringImplementations.CountDelimiters | BinaryFileMetadata/StringImplementations.cs:7-15 | the first pass counts the delimiters |
| StringImplementations.CutParts | BinaryFileMetadata/StringImplementations.cs:18-33 | the second pass fills exactly count + 1 slots with the reference split |
| StringImplementations.SplitCount | BinaryFileMetadata/StringImplementations.cs:7-16 | there is one part more than there are delimiters |
| StringImplementations.SplitNoDelimiter | BinaryFileMetadata/StringImplementations.cs:22-31 | no part contains the delimiter |
| StringImplementations.SplitJoin | BinaryFileMetadata/StringImplementations.cs:5-34 | joining the parts with the delimiter gives back the input |
| StringImplementations.JoinSplit | BinaryFileMetadata/StringImplementations.cs:5-34 | splitting a join of delimiter-free parts gives the parts back |
| StringImplementations.HashStep | BinaryFileMetadata/StringImplementations.cs:63 | one step of the 32-bit hash stays strictly between -int.MaxValue and int.MaxValue |
| StringImplementations.CustomHashSpec | BinaryFileMetadata/StringImplementations.cs:58-66 | the empty string hashes to 0 and every hash stays strictly within int.MaxValue in size |
| StringImplementations.CustomHash | BinaryFileMetadata/StringImplementations.cs:58-66 | the loop computes the hash step by step over the characters |
| StringImplementations.FormatFileListing | BinaryFileMetadata/StringImplementations.cs:68-90 | a 15-character line holds the name cut or padded to 10, then size + "B;"; the fixed array overflows exactly unless -100 < size < 1000 |
| StringImplementations.PadName | BinaryFileMetadata/StringImplementations.cs:73-81 | the first 10 slots hold the name's characters, then spaces |
| StringImplementations.WriteSuffix | BinaryFileMetadata/StringImplementations.cs:83-87 | the size text lands right after the name and nothing else changes |
| CustomLists.CustomList.constructor | BinaryFileMetadata/CustomDataStructs/CustomList.cs:13-17 | an empty list over an array of capacity 8 |
| CustomLists.CustomList.Count | BinaryFileMetadata/CustomDataStructs/CustomList.cs:20-26 | the number of elements |
| CustomLists.CustomList.Get | BinaryFileMetadata/CustomDataStructs/CustomList.cs:31-36 | the element at an index in range; an index out of range is the exception |
| CustomLists.CustomList.Set | BinaryFileMetadata/CustomDataStructs/CustomList.cs:37-42 | an index in range replaces that element only; out of range nothing changes |
| CustomLists.CustomList.Add | BinaryFileMetadata/CustomDataStructs/CustomList.cs:46-59 | the item goes to the end, and the array doubles exactly when it was full |
| CustomLists.CustomList.RemoveAt | BinaryFileMetadata/CustomDataStructs/CustomList.cs:62-74 | true exactly for an index in range, which removes that element and keeps the order of the rest |
| CustomLists.CustomList.ShiftDown | BinaryFileMetadata/CustomDataStructs/CustomList.cs:67-70 | every slot from the index on takes its right neighbour's value, and the rest are kept |
| CustomHashMaps.ClearSignBit | BinaryFileMetadata/CustomHashMap.cs:29 | `& 0x7FFFFFFF` keeps a non-negative hash and adds 2^31 to a negative one |
| CustomHashMaps.BucketOf | BinaryFileMetadata/CustomHashMap.cs:27-31 | every key maps to a bucket in range |
| CustomHashMaps.CustomHashMap.BucketIndex | BinaryFileMetadata/CustomHashMap.cs:27-31 | GetBucketIndex is the bucket of the key for the map's hash function |
| CustomHashMaps.KeyIndexSpec | BinaryFileMetadata/CustomHashMap.cs:39-47 | the bucket search finds the first pair with the key, and -1 means none has it |
| CustomHashMaps.PutBucket | BinaryFileMetadata/CustomHashMap.cs:39-50 | overwriting or appending in one bucket keeps its keys distinct and moves only a new key's search result |
| CustomHashMaps.InvEmpty | BinaryFileMetadata/CustomHashMap.cs:15-25 | empty buckets represent the empty map with count 0 |
| CustomHashMaps.InvPut | BinaryFileMetadata/CustomHashMap.cs:33-51 | Add keeps the representation invariant, maps the key to the value, and counts only a new key |
| CustomHashMaps.InvDelete | BinaryFileMetadata/CustomHashMap.cs:66-81 | Remove keeps the invariant, takes the key out and lowers the count by one |
| CustomHashMaps.CustomHashMap.constructor | BinaryFileMetadata/CustomHashMap.cs:15-25 | capacity is the argument, or 16 for a non-positive one; all buckets are empty and the map is empty |
| CustomHashMaps.CustomHashMap.Count | BinaryFileMetadata/CustomHashMap.cs:112-115 | the number of keys in the map |
| CustomHashMaps.CustomHashMap.Add | BinaryFileMetadata/CustomHashMap.cs:33-51 | the map gains or overwrites the key and the count rises only for a new key |
| CustomHashMaps.CustomHashMap.ContainsKey | BinaryFileMetadata/CustomHashMap.cs:54-64 | true exactly when the key is in the map |
| CustomHashMaps.CustomHashMap.Remove | BinaryFileMetadata/CustomHashMap.cs:66-81 | true exactly when the key was present; the key is gone and the count drops only then |
| CustomHashMaps.CustomHashMap.Clear | BinaryFileMetadata/CustomHashMap.cs:83-90 | the map is empty, the count is 0 and the capacity is kept |
| CustomHashMaps.CustomHashMap.Get | BinaryFileMetadata/CustomHashMap.cs:94-104 | the key's value, or the not-found exception exactly when the key is absent |
| CustomHashMaps.CustomHashMap.SetItem | BinaryFileMetadata/CustomHashMap.cs:105-108 | the setter behaves as Add |
| Blocks.HashFrom | BinaryFileMetadata/CustomDataStructs/BlockIndex.cs:98-103 | the running sum stays within 0 and 1000000007 |
| Blocks.HashValue | BinaryFileMetadata/CustomDataStructs/BlockIndex.cs:96-105 | a block's hash sum is within 0 and 1000000007 |
| Blocks.HashStringValue | BinaryFileMetadata/CustomDataStructs/BlockIndex.cs:104 | the hash text is "blk" followed by the sum's decimal text |
| Blocks.HashStringInjective | BinaryFileMetadata/CustomDataStructs/BlockIndex.cs:96-105 | two blocks have the same hash text exactly when their sums agree |
| Blocks.HashStringAscii | BinaryFileMetadata/CustomDataStructs/BlockIndex.cs:104 | a hash text is ASCII and at most 13 characters, so it is always stored faithfully |
| Blocks.FindHash | BinaryFileMetadata/CustomDataStructs/BlockIndex.cs:14-24 | the first block with the hash, or -1 exactly when none has it |
| Blocks.AddBlockExisting | BinaryFileMetadata/CustomDataStructs/BlockIndex.cs:31-35 | a known hash returns the first block with it, keeps its bytes, raises its count and touches no other block |
| Blocks.AddBlockNew | BinaryFileMetadata/CustomDataStructs/BlockIndex.cs:36-41 | an unknown hash appends a block of the data with count 1 and returns its position |
| Blocks.AddBlockId | BinaryFileMetadata/CustomDataStructs/BlockIndex.cs:26-42 | AddBlock never shrinks the list nor changes any block's hash or bytes |
| Blocks.AddBlockDistinct | BinaryFileMetadata/CustomDataStructs/BlockIndex.cs:26-42 | deduplication keeps all hashes in the index distinct |
| Blocks.AddBlockHashesMatch | BinaryFileMetadata/CustomDataStructs/BlockIndex.cs:26-42 | every block keeps the hash of its own bytes |
| Blocks.AddBlockData | BinaryFileMetadata/CustomDataStructs/BlockIndex.cs:26-42 | when hashes do not collide, the id returned names a block holding the data |
| Blocks.DecrementInRange | BinaryFileMetadata/CustomDataStructs/BlockIndex.cs:44-55 | a block at count 1 or less is removed and the later blocks move down one; otherwise only its count drops by one |
| Blocks.DecrementKeeps | BinaryFileMetadata/CustomDataStructs/BlockIndex.cs:44-55 | decrementing keeps hashes distinct and matching their bytes |
| Blocks.ReadBlockOf | BinaryFileMetadata/CustomDataStructs/BlockIndex.cs:70-91 | one written block record reads back as itself |
| Blocks.DecodeBlocksOf | BinaryFileMetadata/CustomDataStructs/BlockIndex.cs:64-95 | a serialized block index deserializes to the same blocks, leaving what followed |
| Blocks.BlockRecord.constructor | BinaryFileMetadata/CustomDataStructs/BlockRecord.cs:12-17 | a new block record holds the hash and data with reference count 1 |
| Blocks.BlockIndex.constructor | BinaryFileMetadata/CustomDataStructs/BlockIndex.cs:9-12 | a new index has no blocks |
| Blocks.BlockIndex.FindBlockIndexByHash | BinaryFileMetadata/CustomDataStructs/BlockIndex.cs:14-24 | the loop returns the first position with the hash, or -1 |
| Blocks.BlockIndex.ComputeHash | BinaryFileMetadata/CustomDataStructs/BlockIndex.cs:96-105 | the loop over the bytes, in 64-bit arithmetic, yields the hash text |
| Blocks.BlockIndex.AddBlock | BinaryFileMetadata/CustomDataStructs/BlockIndex.cs:26-42 | the blocks and the returned id are those of the deduplicating add |
| Blocks.BlockIndex.DecrementRefCount | BinaryFileMetadata/CustomDataStructs/BlockIndex.cs:44-55 | an id out of range changes nothing; otherwise the count drops and a block at zero or below is removed |
| Blocks.BlockIndex.GetBlockRecord | BinaryFileMetadata/CustomDataStructs/BlockIndex.cs:57-62 | null exactly for an id out of range, else the block at that id |
| Blocks.BlockIndex.Serialize | BinaryFileMetadata/CustomDataStructs/BlockIndex.cs:64-76 | the bytes are the count, then each block's hash, length, data and count |
| Blocks.BlockIndex.Deserialize | BinaryFileMetadata/CustomDataStructs/BlockIndex.cs:78-95 | fails exactly when the stream is malformed; otherwise the decoded blocks are appended and the rest of the stream is returned |
| FileRecords.FileRecord.constructor | BinaryFileMetadata/CustomDataStructs/FileRecord.cs:10-14 | a new record has the path and no blocks |
| FileRecords.FileRecord.Serialize | BinaryFileMetadata/CustomDataStructs/FileRecord.cs:17-25 | the bytes are the path, the id count, then each id |
| FileRecords.FileRecord.Deserialize | BinaryFileMetadata/CustomDataStructs/FileRecord.cs:27-36 | fails exactly when the stream is malformed; otherwise the path is replaced, the ids read are appended and the rest is returned |
| FileRecords.DecodeRecordOf | BinaryFileMetadata/CustomDataStructs/FileRecord.cs:17-36 | a record with an ASCII path and 32-bit ids reads back as itself |
| FileRecords.RecordsReadBack | BinaryFileMetadata/FileSystemContainer.cs:45-51 | records written one after another read back as the same list |
| FileRecords.EncodedSize | BinaryFileMetadata/CustomDataStructs/FileRecord.cs:17-25 | a record takes 8 bytes, plus one per path character, plus 4 per block id |
| ContainerModel.ChunksFlatten | BinaryFileMetadata/FileSystemContainer.cs:64-77 | the chunks put together are the file's bytes |
| ContainerModel.ChunksShape | BinaryFileMetadata/FileSystemContainer.cs:64-77 | every chunk but the last is a full block, the last is not empty, and an empty file has no chunks |
| ContainerModel.ChunkBoundary | BinaryFileMetadata/FileSystemContainer.cs:64-77 | k full blocks give k chunks, and k blocks plus r bytes give k + 1 chunks with a last chunk of r bytes |
| ContainerModel.Ingest | BinaryFileMetadata/FileSystemContainer.cs:56-84 | the earlier records are kept and one record with the path is appended, under the same block size |
| ContainerModel.IngestExtract | BinaryFileMetadata/FileSystemContainer.cs:56-108 | a new path copied in copies out as the same bytes, and its size is their number, when hashes do not collide |
| ContainerModel.IngestRefInv | BinaryFileMetadata/FileSystemContainer.cs:64-79 | copying in keeps every block's count equal to the number of ids that name it |
| ContainerModel.FindFile | BinaryFileMetadata/FileSystemContainer.cs:154-164 | the first record with the path, or -1 exactly when none has it |
| ContainerModel.Extract | BinaryFileMetadata/FileSystemContainer.cs:86-108 | fails with not-found exactly when no record has the path |
| ContainerModel.SumSizesLength | BinaryFileMetadata/FileSystemContainer.cs:142-151 | the size summed over the ids is the length of what they copy out |
| ContainerModel.FileSizeExtract | BinaryFileMetadata/FileSystemContainer.cs:135-152 | the reported size is -1 for a missing path and otherwise the length of what copies out |
| ContainerModel.Remove | BinaryFileMetadata/FileSystemContainer.cs:110-133 | removal as written: a missing path changes nothing, and the block size is kept |
| ContainerModel.RemoveLeavesStaleIds | BinaryFileMetadata/FileSystemContainer.cs:110-133 | as written, removing one file can make another copy out different bytes |
| ContainerModel.RemoveRenumbered | BinaryFileMetadata/FileSystemContainer.cs:110-133 | corrected removal: a missing path changes nothing |
| ContainerModel.DropAllKeeps | BinaryFileMetadata/FileSystemContainer.cs:121-124 | the corrected decrement loop keeps the counts exact and what the other records copy out |
| ContainerModel.RemoveRenumberedKeeps | BinaryFileMetadata/FileSystemContainer.cs:110-133 | corrected removal keeps the counts exact and every other path copies out as before |
| ContainerModel.DecodeRecordsOf | BinaryFileMetadata/FileSystemContainer.cs:45-51 | the record count and the records read back as the same list |
| ContainerModel.LoadPartsOf | BinaryFileMetadata/FileSystemContainer.cs:40-53 | a saved container reads back as its header, blocks and records |
| ContainerModel.LoadRoundTrip | BinaryFileMetadata/FileSystemContainer.cs:37-53 | with the header read as the block size, a saved container loads as itself |
| ContainerModel.LoadAsWrittenIgnoresHeader | BinaryFileMetadata/FileSystemContainer.cs:43 | as written, loading keeps the opening block size instead of the saved one |
| ContainerModel.FreshContainer | BinaryFileMetadata/FileSystemContainer.cs:26-36 | a new container file is the block size and two zero counts, and it loads as an empty container |
| Container.FileSystemContainer.constructor | BinaryFileMetadata/FileSystemContainer.cs:18-24 | a container with the block size, no blocks and no records |
| Container.FileSystemContainer.Open | BinaryFileMetadata/FileSystemContainer.cs:18-54 | no file creates an empty container and writes its header; an existing file loads, failing exactly when it is malformed, and the container keeps the block size it was opened with |
| Container.FileSystemContainer.LoadFrom | BinaryFileMetadata/FileSystemContainer.cs:37-53 | loading succeeds exactly when the bytes parse and gives the blocks and records they encode; the header read is dropped and the block size is unchanged |
| Container.FileSystemContainer.LoadRecords | BinaryFileMetadata/FileSystemContainer.cs:45-51 | the loop builds distinct record objects holding the records decoded |
| Container.FileSystemContainer.LoadRecord | BinaryFileMetadata/FileSystemContainer.cs:48-50 | one new record, deserialized from the stream, is appended |
| Container.FileSystemContainer.FileRecordCount | BinaryFileMetadata/FileSystemContainer.cs:181-187 | the number of stored files |
| Container.FileSystemContainer.GetFileRecord | BinaryFileMetadata/FileSystemContainer.cs:189-192 | the record at an index in range; out of range is the exception |
| Container.FileSystemContainer.FindFileRecordIndex | BinaryFileMetadata/FileSystemContainer.cs:154-164 | the first record with the path, or -1 |
| Container.FileSystemContainer.CopyFileOutFromContainer | BinaryFileMetadata/FileSystemContainer.cs:86-108 | the bytes of the path's blocks in order, or not-found |
| Container.FileSystemContainer.ReadBlocks | BinaryFileMetadata/FileSystemContainer.cs:98-105 | the blocks named by the ids are concatenated, skipping ids with no block |
| Container.FileSystemContainer.GetFileSizeInContainer | BinaryFileMetadata/FileSystemContainer.cs:135-152 | -1 for a missing path, else the sum of the sizes of its blocks |
| Container.FileSystemContainer.SizeOfBlocks | BinaryFileMetadata/FileSystemContainer.cs:142-150 | the loop sums the lengths of the blocks found |
| Container.FileSystemContainer.CopyChunk | BinaryFileMetadata/FileSystemContainer.cs:69-73 | the copy loop yields the slice at the offset |
| Container.FileSystemContainer.CopyFileIntoContainer | BinaryFileMetadata/FileSystemContainer.cs:56-84 | fails exactly for a missing source or a negative block size, changing nothing; otherwise the state is the ingest and the file is rewritten |
| Container.FileSystemContainer.StoreFile | BinaryFileMetadata/FileSystemContainer.cs:62-79 | the chunks are added and one record with their ids is appended |
| Container.FileSystemContainer.StoreChunks | BinaryFileMetadata/FileSystemContainer.cs:64-77 | the chunking loop adds each chunk in order and collects the ids |
| Container.FileSystemContainer.StoreChunk | BinaryFileMetadata/FileSystemContainer.cs:68-76 | one turn: a chunk of min(block size, bytes left) is added and its id collected |
| Container.FileSystemContainer.RemoveFile | BinaryFileMetadata/FileSystemContainer.cs:110-133 | true exactly when the path is stored; then the state is removal as written and the file is rewritten, otherwise nothing changes |
| Container.FileSystemContainer.RemoveRecord | BinaryFileMetadata/FileSystemContainer.cs:119-127 | each id of the k-th record is decremented in turn, then the record goes; the other records keep their ids |
| Container.FileSystemContainer.DecrementEach | BinaryFileMetadata/FileSystemContainer.cs:121-124 | the decrement loop leaves the block index as DecrementRefCount of each id in turn, and the records untouched |
| Container.FileSystemContainer.RemoveFileRenumbered | BinaryFileMetadata/FileSystemContainer.cs:110-133 | the corrected removal of Findings row 1, in place: true exactly when the path is stored; then the state is RemoveRenumbered, whose counts and other files RemoveRenumberedKeeps proves intact |
| Container.FileSystemContainer.RemoveRecordRenumbered | BinaryFileMetadata/FileSystemContainer.cs:119-127 | corrected: the record goes and its references are dropped with every id kept current |
| Container.FileSystemContainer.DropBlocks | BinaryFileMetadata/FileSystemContainer.cs:121-124 | corrected decrement loop: each decrement, then the renumbering the code lacks |
| Container.FileSystemContainer.RenumberRecords | BinaryFileMetadata/CustomDataStructs/BlockIndex.cs:50-54 | the correction for the compaction at these lines: after a block is deleted, every id above it held by a record moves down one |
| Container.FileSystemContainer.ContainerBytes | BinaryFileMetadata/FileSystemContainer.cs:166-179 | the bytes written are the encoding of the state |
| Container.FileSystemContainer.RecordsBytes | BinaryFileMetadata/FileSystemContainer.cs:173-177 | the records are written one after another |
| Container.FileSystemContainer.SerializeContainer | BinaryFileMetadata/FileSystemContainer.cs:166-179 | the file becomes the encoding of the unchanged state |
| Directories.FirstNamed | BinaryFileMetadata/DirectoryEntry.cs:64-71 | the first subdirectory with the name, or -1 exactly when none has it |
| Directories.FirstIndex | BinaryFileMetadata/DirectoryEntry.cs:100-103 | the first position of the file name, or -1 exactly when it is absent |
| Directories.Doubled | BinaryFileMetadata/DirectoryEntry.cs:32-40 | a fresh array twice as long beginning with the old elements |
| Directories.ShiftLeft | BinaryFileMetadata/DirectoryEntry.cs:50-53 | the used part loses its k-th element and keeps the order; slots past it are kept |
| Directories.DirectoryEntry.constructor | BinaryFileMetadata/DirectoryEntry.cs:19-28 | an entry with the name and parent and two empty arrays of capacity 8 |
| Directories.DirectoryEntry.AddSubdirectory | BinaryFileMetadata/DirectoryEntry.cs:30-42 | the directory goes to the end, and the array doubles exactly when it was full |
| Directories.DirectoryEntry.RemoveSubdirectory | BinaryFileMetadata/DirectoryEntry.cs:44-60 | true exactly when a subdirectory has the name; the first such one goes and the rest keep their order |
| Directories.DirectoryEntry.FindSubdirectory | BinaryFileMetadata/DirectoryEntry.cs:62-72 | the first subdirectory with the name, or null |
| Directories.DirectoryEntry.GetDirectories | BinaryFileMetadata/DirectoryEntry.cs:74-82 | a fresh array of the subdirectories in order |
| Directories.DirectoryEntry.AddFile | BinaryFileMetadata/DirectoryEntry.cs:84-96 | the name goes to the end, and the array doubles exactly when it was full |
| Directories.DirectoryEntry.RemoveFile | BinaryFileMetadata/DirectoryEntry.cs:98-114 | true exactly when the name is present; its first occurrence goes and the rest keep their order |
| Directories.DirectoryEntry.GetFiles | BinaryFileMetadata/DirectoryEntry.cs:116-124 | a fresh array of the file names in order |
| Directories.DirectoryEntry.GetFullPath | BinaryFileMetadata/DirectoryEntry.cs:127-139 | "\" for the root; every path starts with "\" |
| Directories.FullPathNames | BinaryFileMetadata/DirectoryEntry.cs:127-139 | the full path is "\" followed by the names from the root down, joined by "\" |
| DirectoryManagers.LastIndexOf | BinaryFileMetadata/DirectoryManager.cs:65-72 | the last "\" in the path, or -1 exactly when there is none |
| DirectoryManagers.SplitPathParts | BinaryFileMetadata/DirectoryManager.cs:53-93 | the file name never holds a "\", and directory, "\" and name give back the path |
| DirectoryManagers.SplitFileFullPath | BinaryFileMetadata/DirectoryManager.cs:53-93 | a path the file commands build from a directory path and a name splits back into exactly those two |
| DirectoryManagers.SplitPathOf | BinaryFileMetadata/DirectoryManager.cs:128-148 | the path of non-empty, "\"-free names splits back into the names |
| DirectoryManagers.FullPathSplits | BinaryFileMetadata/DirectoryManager.cs:128-148 | a directory's full path splits into the names from the root down to it |
| DirectoryManagers.LookupAppend | BinaryFileMetadata/DirectoryManager.cs:109-123 | walking a + b is walking a, then b from where a led |
| DirectoryManagers.LookupExtends | BinaryFileMetadata/DirectoryManager.cs:109-123 | a walk that succeeds keeps its result while subdirectories are only appended |
| DirectoryManagers.PlacedExtends | BinaryFileMetadata/DirectoryManager.cs:28-49 | a file found in the tree stays found as the tree grows |
| DirectoryManagers.ChangeIsStep | BinaryFileMetadata/DirectoryManager.cs:180-189 | entering a name succeeds exactly when the tree walk by that name does, and lands where it leads |
| DirectoryManagers.ChangeThereAndBack | BinaryFileMetadata/DirectoryManager.cs:166-189 | after entering a subdirectory, ".." comes back to where it started |
| DirectoryManagers.ChangeAfterMake | BinaryFileMetadata/DirectoryManager.cs:150-189 | a directory just made can be entered by its name |
| DirectoryManagers.RemoveIffChange | BinaryFileMetadata/DirectoryManager.cs:180-203 | a name can be removed exactly when it can be entered |
| DirectoryManagers.DirNames | BinaryFileMetadata/DirectoryManager.cs:209-213 | the names of the subdirectories, in order |
| DirectoryManagers.DirectoryManager.constructor | BinaryFileMetadata/DirectoryManager.cs:12-22 | the current directory is a root named "\" with no parent; every stored path is found in the rebuilt tree, and every file name the tree lists is the file part of a stored path whose directory part leads to it |
| DirectoryManagers.DirectoryManager.LoadDirectoryTree | BinaryFileMetadata/DirectoryManager.cs:28-49 | after the loop every stored path's file name is listed in the directory its path leads to, and every name listed was there before or comes from a stored path in that way |
| DirectoryManagers.DirectoryManager.LoadRecord | BinaryFileMetadata/DirectoryManager.cs:35-47 | exactly the record's file name is appended to the directory its directory part leads to, no other list changes, and every path placed so far stays placed |
| DirectoryManagers.DirectoryManager.PlaceFile | BinaryFileMetadata/DirectoryManager.cs:41-47 | exactly the file name is appended to the directory the directory part leads to; every other file list is kept, new directories list nothing, and subdirectories are added only as new nodes |
| DirectoryManagers.DirectoryManager.GetOrCreateDirectory | BinaryFileMetadata/DirectoryManager.cs:97-125 | returns the node the path leads to from the root; every directory it creates is new and empty and one a prefix of the path leads to, old nodes keep their files, and nothing is created when the path exists |
| DirectoryManagers.CreatedOnPathStep | BinaryFileMetadata/DirectoryManager.cs:110-122 | a step of the walk that adds at most the node it reaches keeps every created node on the path |
| DirectoryManagers.OnlyNewAttached | BinaryFileMetadata/DirectoryManager.cs:115-121 | attaching one more new leaf keeps the change to new, empty directories only |
| DirectoryManagers.OnlyListedNext | BinaryFileMetadata/DirectoryManager.cs:35-47 | placing one more stored path keeps every listed file name accounted for by a stored path |
| DirectoryManagers.DirectoryManager.Descend | BinaryFileMetadata/DirectoryManager.cs:111-122 | one loop turn: a blank name stays put, any other goes to the first subdirectory with it, attached when missing |
| DirectoryManagers.DirectoryManager.FindOrAttach | BinaryFileMetadata/DirectoryManager.cs:115-121 | the first subdirectory with the name, which is a new one attached at the end when there was none |
| DirectoryManagers.DirectoryManager.Attach | BinaryFileMetadata/DirectoryManager.cs:119-120 | a fresh empty directory with the name becomes the parent's last subdirectory |
| DirectoryManagers.DirectoryManager.SplitPath | BinaryFileMetadata/DirectoryManager.cs:53-93 | the method gives the directory part and the file name of the reference split |
| DirectoryManagers.DirectoryManager.SplitFullPath | BinaryFileMetadata/DirectoryManager.cs:128-148 | the method gives the directory names of the reference split |
| DirectoryManagers.DirectoryManager.MakeDirectory | BinaryFileMetadata/DirectoryManager.cs:150-155 | a fresh empty directory with the name and the current directory as parent becomes its last subdirectory |
| DirectoryManagers.DirectoryManager.ChangeDirectory | BinaryFileMetadata/DirectoryManager.cs:157-190 | "\" goes to the root, ".." to the parent unless already at the root, a name to its first subdirectory, or nothing when missing |
| DirectoryManagers.DirectoryManager.RemoveDirectory | BinaryFileMetadata/DirectoryManager.cs:192-203 | succeeds exactly when a subdirectory has the name, and only the first such one is dropped |
| DirectoryManagers.DirectoryManager.ListCurrentDirectory | BinaryFileMetadata/DirectoryManager.cs:205-226 | the subdirectory names in order, then each file name with the size the container reports for its full path |
| DirectoryManagers.DirectoryManager.SubdirectoryNames | BinaryFileMetadata/DirectoryManager.cs:209-213 | the names of the directory's subdirectories in order |
| DirectoryManagers.DirectoryManager.FileSizes | BinaryFileMetadata/DirectoryManager.cs:215-225 | each file name paired with the container's size for its full path |
| DirectoryManagers.DirectoryManager.AddFileToCurrentDirectory | BinaryFileMetadata/DirectoryManager.cs:228-231 | the name is appended to the current directory's files, and nothing else changes |
| DirectoryManagers.DirectoryManager.RemoveFileFromCurrentDirectory | BinaryFileMetadata/DirectoryManager.cs:233-236 | the first occurrence of the name leaves the current directory's files, and nothing else changes |
| DirectoryManagers.DirectoryManager.AddFileTo | BinaryFileMetadata/DirectoryManager.cs:47 | the name is appended to the directory's files and the tree is otherwise unchanged |
| DirectoryManagers.DirectoryManager.RemoveFileFrom | BinaryFileMetadata/DirectoryManager.cs:235 | true exactly when the name was listed; its first occurrence goes |
| DirectoryManagers.DirectoryManager.GetCurrentDirectoryFullPath | BinaryFileMetadata/DirectoryManager.cs:238-241 | starts with "\" and is the names from the root down, joined by "\" |
| DirectoryManagers.DirectoryManager.CopyFileIn | BinaryFileMetadata/DirectoryManager.cs:245-255 | on success the container holds the file under the current directory's path, the container file is rewritten and the name is listed; on failure the error is the copy-in's and the container, its file and the tree are unchanged |
| DirectoryManagers.DirectoryManager.Store | BinaryFileMetadata/DirectoryManager.cs:253 | the container's copy-in under the built path, with its failure cases; the container file is rewritten on success and kept on failure |
| DirectoryManagers.DirectoryManager.CopyFileOut | BinaryFileMetadata/DirectoryManager.cs:258-267 | the bytes stored under the current directory's path for the name, or not-found |
| DirectoryManagers.DirectoryManager.RemoveFile | BinaryFileMetadata/DirectoryManager.cs:270-279 | the container's removal as written at the built path, the container file rewritten exactly when the path was stored, and the name's first occurrence leaves the current directory |
| DirectoryManagers.DirectoryManager.Unstore | BinaryFileMetadata/DirectoryManager.cs:277 | the container's removal as written at the path, the container file rewritten exactly when the path was stored, with the tree kept |

## Left out

- Console output: the commands' messages become return values. These are the ChangeDirectory outcome, the RemoveDirectory flag, and the listing as two sequences. The listing's heading line and its line formats are not modelled.
- Local files: the source file is an `Option<seq<byte>>` argument, where None stands for a missing file. The copied-out bytes are returned instead of being written to a destination file. The container file is the field `disk`, and opening a container takes its bytes, or None when it does not exist.
- UTF-8 decoding is modelled only for ASCII bytes. Other bytes give an error. `Wire.NonAsciiStringMisread` shows that the written character count does not match the byte count for non-ASCII text.
- `GetHashCode` and `Equals` of the map's key type are a `hashCode` function given to the map and Dafny equality.
- The code calls CustomCompare, IsNullOrWhiteSpace and Length, but their bodies are not in the repository. They are modelled by their evident meaning.
- Program.cs, the interactive shell, is not part of this model.
- The lists inside BlockIndex, FileRecord and FileSystemContainer are Dafny sequences. CustomList, with its array and its doubling, is modelled on its own.
- Array lengths and counts are unbounded integers. The wrap-around of a list's doubled capacity past 2^31 is not modelled.
- Container.FileSystemContainer.CopyFileIntoContainer: requires a non-zero block size whenever the source is non-empty. With block size 0 the chunking loop never advances, and non-termination is not modelled.
- DirectoryManagers.DirectoryManager.CopyFileIn: requires a non-zero block size whenever the source is non-empty, for the same reason.
- DirectoryManagers.DirectoryManager.Store: requires a non-zero block size whenever the source is non-empty, for the same reason.
- Wire.Wrap32: ensures the result is a 32-bit value and equals an argument already in range. It does not ensure the congruence modulo 2^32, which is not needed anywhere in the model.
- FileRecords.FileRecord.Deserialize: when a read fails, the fields assigned before the failure are not described. The code throws at that point and the record is abandoned.
- The DirectoryManager commands require a valid container and tree. This is their object invariant, not a restriction on command arguments.
- Container.FileSystemContainer.RemoveFileRenumbered: the corrected removal of Findings row 1. The code has no such method. The commands call the as-written RemoveFile.
- Container.FileSystemContainer.RemoveRecordRenumbered: part of the corrected removal, with no counterpart in the code.
- Container.FileSystemContainer.DropBlocks: the corrected decrement loop. Unlike the code's loop, it renumbers the remaining ids after each deleted block.
- Container.FileSystemContainer.RenumberRecords: the renumbering of the corrected removal. The code never rewrites a record's ids.
- The corrected load (`ContainerModel.Load`, which takes the header as the block size) is stated only as a function. `LoadRoundTrip` proves it. Open and LoadFrom load as written.
- Strings are sequences of Unicode scalar values, while a C# `char` is a UTF-16 code unit. For a character outside the Basic Multilingual Plane, such as U+1F600, C#'s `Length` counts 2 where the model counts 1. So these differ from the code for such characters:
  - the length prefix that WriteString writes;
  - CustomHash's per-character sum;
  - FormatFileListing's cut at 10 characters;
  - the positions IndexOf and Substring use.

## Findings

| source | as written | input that shows it | evidently intended | confidence | as-written member | corrected member |
|---|---|---|---|---|---|---|
| BinaryFileMetadata/FileSystemContainer.cs:110-133 | removing a file deletes blocks whose count reaches zero, which closes up the block list; the other records keep their old block ids | block size 1: copy in "a" = [1], then "b" = [2], then remove "a". Block 0 goes, and "b" still names id 1, so it copies out as [] instead of [2] | every id above a deleted block moves down one, so the remaining files copy out unchanged | not executed | ContainerModel.RemoveLeavesStaleIds | ContainerModel.RemoveRenumberedKeeps |
| BinaryFileMetadata/FileSystemContainer.cs:43 | the loading constructor reads the header into its `blockSize` parameter, which hides the field, so the container keeps the block size it was opened with | save a container with block size 4 and reopen it with 8; later files are cut into 8-byte blocks | the saved block size is restored on load | not executed | ContainerModel.LoadAsWrittenIgnoresHeader | ContainerModel.LoadRoundTrip |
