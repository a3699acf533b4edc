# deterministic-tar, modelled in Dafny

`deterministic-tar` turns a directory tree into a byte-for-byte reproducible
tar archive. Identical content and options always give the same archive,
whatever the file times, owners or on-disk listing order. It can also write a
SHA-512 listing of the file contents. The model covers the two halves that
make this work:

- **The directory walker** (`DirWalkIterator` in `src/main.rs`). It keeps a
  stack of paths still to visit. Each call to `next` pops one path and stats
  it without following links. It then either:
  - resolves a symbolic link to a file or directory item;
  - yields a file;
  - yields a directory and pushes its allowed entries, sorted in descending
    order;
  - drops an empty directory;
  - or panics.
- **The archive encoder** (`TarOutput`). It writes:
  - 512-byte ustar headers with the old-GNU magic `"ustar  \0"` and the
    header checksum;
  - GNU `././@LongLink` long-name records for names over 100 bytes;
  - file content copied chunk by chunk and zero-padded to the block size;
  - one line of the digest listing per file;
  - ten zero blocks as the end marker.
- **The naming of members in `main`**. The `--main-dir-name` option is
  checked. Each item is named by pushing its relative path components after
  the first onto the top-level name. Directories get a trailing `/`.

The Dafny modules follow the program:

| module | file | content |
|---|---|---|
| `Bytes` | bytes.dfy | bytes, byte sums, octal formatting and parsing, hex encoding, byte-wise order |
| `NameOrder` | order.dfy | insertion sorts of file names, ascending and descending, with their permutation and uniqueness lemmas |
| `Walk` | walk.dfy | the file system as a map, `Classify` (the body of `next`), the stack machine `NextSpec`, and the class `DirWalkIterator` with its loop |
| `PreOrder` | preorder.dfy | a recursive depth-first reference walk `Visit`, and the proof that pulling `next` until `None` yields exactly its items |
| `WalkFacts` | walkfacts.dfy | the walk of a concrete file system: it stays inside the input directory, it comes out in path order, and it does not depend on the listing order |
| `Naming` | naming.dfy | `validate_main_dir_name`, `PathBuf::push`, the tar-name loop and its injectivity |
| `MemberNames` | members.dfy | distinct items of one walk get distinct tar names |
| `Tar` | tar.dfy | header layout, the in-place header construction and checksum fix, records, padding, the end marker |
| `Archive` | archive.dfy | the class `TarOutput` over two byte sinks, with one method per writer step |
| `TarReader` | reader.dfy | a minimal ustar/GNU reader. It is the partner of the writer: reading back written records gives the members that were written |

## Model

| member | source | states |
|---|---|---|
| Tar.FixHeaderChecksum | src/main.rs:192-204 | the 512-byte header array afterwards is the old header with bytes 148..156 replaced by the checksum field of the sum of all its bytes |
| Tar.ChecksumValid | src/main.rs:192-204 | after the fix, the six octal digits at 148 parse to the sum of the header with the checksum field counted as eight spaces, followed by NUL and space, and nothing outside 148..156 changes |
| Tar.ChecksumFits | src/main.rs:193-203 | the sum of a 512-byte header is at most 512*255, so it always fits six octal digits |
| Tar.ChecksumFieldShape | src/main.rs:203 | the checksum field is eight bytes: six octal digits that parse back to the sum, NUL, space |
| Tar.Put | src/main.rs:230-240 | a `clone_from_slice` field copy: the destination holds the source bytes at the given offset and is unchanged everywhere else |
| Tar.NewHeader | src/main.rs:229-240 | the fresh array built by the field-by-field slice copies equals the reference header layout `RawHeader` |
| Tar.RawHeaderAt | src/main.rs:229-240 | byte by byte, each field of the unfixed header: truncated, zero-filled name; mode; uid and gid "0000000\0"; size; zero mtime; eight spaces; typeflag; magic; owner and group "root"; zeros elsewhere |
| Tar.HeaderLayout | src/main.rs:229-241 | the finished header has every field at its ustar offset and a valid checksum |
| Tar.SizeFieldValue | src/main.rs:283 | below 8^11 the size field is eleven octal digits that parse to the size, then NUL; at or above it the formatted text is longer than the 12-byte field |
| Tar.DirectorySizeIsZero | src/main.rs:235 | a directory's size field is twelve bytes and reads as 0 |
| Tar.Padding | src/main.rs:224 | the padding is less than a block and brings the length to a block boundary; an aligned length gets none |
| Tar.LongNameHeaderFields | src/main.rs:209-220 | the long-name header is named "././@LongLink", carries the mode, has typeflag 'L', and its size field reads as the name length |
| Tar.LongNameRecordShape | src/main.rs:207-226 | the long-name record is that header, then the full name, then zero padding, and its length is a multiple of 512 |
| Tar.LongNameRecordLength | src/main.rs:221-226 | the long-name record is one header block plus the name plus its padding |
| Tar.DirectoryRecordAligned | src/main.rs:206-243 | a directory member occupies a multiple of 512 bytes: one block, plus the long-name record when the name is over 100 bytes |
| Tar.FileRecordAligned | src/main.rs:252-314 | a file member occupies a multiple of 512 bytes: optional long-name record, header, content, padding |
| Archive.TarOutput.constructor | src/main.rs:361-384 | the writer starts with an empty archive sink and, only when a digest sink was requested, an empty digest sink; SHA-512 is the given function |
| Archive.TarOutput.WriteHeader | src/main.rs:229-242 | appends exactly the finished header, built in an array and checksummed in place; the digest sink is unchanged |
| Archive.TarOutput.WriteLongName | src/main.rs:207-227 | appends the long-name record when the name length fits the 11-digit size field, and otherwise fails with a field overflow having written nothing |
| Archive.TarOutput.WriteDir | src/main.rs:206-243 | appends the directory record (long-name record when needed, then the header), or fails on an unrepresentable name length |
| Archive.TarOutput.WriteFile | src/main.rs:245-324 | the result and the bytes appended follow `tar_write_file`'s order of failure points: long-name length, size field, bytes read versus stat size. Only a successful write appends the digest line, `hex(sha512(content))`, two spaces, the name and a newline |
| Archive.TarOutput.WriteFileMember | src/main.rs:277-323 | after the long-name record: header, content and padding on success; header and content only when the byte count differs from the stated size |
| Archive.TarOutput.WriteFileHeader | src/main.rs:277-291 | appends the file header when the size fits its field, else fails with nothing appended |
| Archive.TarOutput.CopyContent | src/main.rs:294-309 | the read loop appends every chunk in order, counts exactly the bytes read, and feeds the same bytes to the hasher when there is a digest sink |
| Archive.TarOutput.FinishFile | src/main.rs:313-322 | appends the zero padding for the bytes read and, with a digest sink, the digest line |
| Archive.TarOutput.EndMarker | src/main.rs:326-330 | appends ten zero blocks, 5120 bytes, a whole number of blocks, and leaves the digest sink alone |
| Bytes.FormatOctalRoundTrip | src/main.rs:214 | the zero-padded octal text parses back to the number and holds only octal digits |
| Bytes.FormatOctalLength | src/main.rs:283 | the octal text has exactly the field width if and only if the number is below 8 to that width |
| Bytes.HexRoundTrip | src/main.rs:318 | the hex text of the digest is twice as long, lowercase hex only, and decodes back to the digest |
| Walk.Filter | src/main.rs:96-104 | an entry survives exactly when it is in the listing and its name matches no ignore pattern |
| Walk.Classify | src/main.rs:109-182 | the outcome for every kind of popped path: a missing path fails the stat and a path outside the base directory fails the prefix strip; a file is yielded as `File` with its size; a directory is skipped if and only if it has no allowed entry and empty directories are ignored, and is otherwise yielded as `Directory` with its allowed entries as children; a link aborts with `SymlinkFound` in abort mode, and otherwise fails if its target is missing, is yielded as `SymlinkToDirectory` or `SymlinkToFile` with the resolved target and that target's size, or fails on a target that is neither; any other node fails as neither file nor directory. `relpath` is always the path after the base directory |
| Walk.Pop | src/main.rs:109-174 | pops the last path and returns its classification; a path that is not emitted just leaves the stack without its top |
| Walk.PopAscending | src/main.rs:172-174 | after a directory is emitted, its allowed entries are pushed so that, read from the top of the stack down, they come in ascending order, so the smallest is popped next |
| Walk.NextSpec | src/main.rs:108-187 | an empty stack gives `None`, and `None` leaves the stack empty |
| Walk.DirWalkIterator.Next | src/main.rs:108-187 | the returned step and the new stack are `NextSpec` of the old stack; the recursive `self.next()` after a skipped directory is the loop's next round |
| Walk.DirWalkIterator.constructor | src/main.rs:79-93 | the iterator holds the given base directory, stack and settings |
| NameOrder.SortDescendingSorted | src/main.rs:173 | `sort_by(b.cmp(a))` gives a descending permutation of the entries |
| NameOrder.ReverseSortDescending | src/main.rs:172-174 | popping the entries pushed in descending order visits them in ascending order |
| NameOrder.SortAscendingDeterministic | src/main.rs:173 | the sorted order depends only on which entries there are, not on the order the system lists them |
| NameOrder.SortAscendingStrict | src/main.rs:173 | distinct entries sort into a strictly ascending sequence |
| PreOrder.StepsCompose | src/main.rs:108-187 | running the stack machine a+b steps is running it a steps and then b more |
| PreOrder.VisitSteps | src/main.rs:108-187 | popping a path above any stack runs through exactly the depth-first visit of that path and leaves the stack below it |
| PreOrder.WalkIsVisit | src/main.rs:395-404 | pulling `next` from the stack holding only the input yields exactly the reference walk's items, then `None` or the walk's panic |
| WalkFacts.WalkerBounded | src/main.rs:106-188 | the walker yields items only for paths in the file system, so its depth is bounded |
| WalkFacts.IteratorYieldsWalk | src/main.rs:395-404 | the iterator over a concrete file system yields exactly the depth-first walk of the input |
| WalkFacts.WalkWithin | src/main.rs:109-181 | every item is inside the input directory and exists; its kind and size match its node, with links only when links do not abort; no component below the input matches an ignore pattern; a kept directory is non-empty when empty directories are ignored; the first item is the input itself |
| WalkFacts.WalkOrdered | src/main.rs:172-174 | items come in strictly increasing component-wise path order, and only a directory is followed by its descendants, so a link to a directory is never descended into |
| WalkFacts.FilterDistinct | src/main.rs:155-167 | filtering a listing of distinct names keeps them distinct |
| WalkFacts.FilterPermutation | src/main.rs:155-167 | two listings of the same entries in different orders filter to the same entries |
| WalkFacts.ClassifyUpToListingOrder | src/main.rs:154-181 | one `next` step on two file systems that differ only in listing order yields the same item and the same set of children |
| WalkFacts.VisitIgnoresListingOrder | src/main.rs:155-174 | the whole walk is the same whatever order the system lists directory entries in |
| Naming.ValidateMainDirName | src/main.rs:333-346 | fails exactly when a name is given that starts or ends with `/`, and otherwise returns it unchanged |
| Naming.MainDirName | src/main.rs:393-394 | the top-level name is the valid `--main-dir-name` when given, else the input's file name, and fails exactly when validation fails |
| Naming.MainDirNameUnterminated | src/main.rs:393-394 | a non-empty top-level name never ends with a separator |
| Naming.TarName | src/main.rs:405-414 | the push loop computes the tar name `TarNameOf` |
| Naming.PushShape | src/main.rs:405-412 | `PathBuf::push` replaces the name with an absolute component, and otherwise appends the component with one separator in between exactly when the name is non-empty and does not end in `/`; `push("")` adds the trailing `/` of a directory name |
| Naming.PushAllJoins | src/main.rs:406-408 | pushing components onto a name that does not end in `/` appends them joined by `/` |
| Naming.TarNameShape | src/main.rs:405-412 | the tar name is the top-level name, then `/` and the relative components after the first, then `/` for a directory or a link to one |
| Naming.TarNameUnderEmptyName | src/main.rs:405-408 | under an empty top-level name the input itself gets the empty name, and every other item its components joined by `/` |
| Naming.TarNameInjective | src/main.rs:405-414 | two tar names are equal if and only if the pushed components are equal and both or neither are directory-like |
| MemberNames.DistinctTarNames | src/main.rs:389-414 | under a valid non-empty top-level name, two different positions of the walk produce different archive names |
| MemberNames.ItemPath | src/main.rs:389-398 | each walked item's path is the input path followed by the components pushed for its name |
| TarReader.HeaderReads | src/main.rs:229-241 | a written header passes the reader's checksum test, has its typeflag, and its size field and short name read back |
| TarReader.LongHeaderReads | src/main.rs:209-220 | the long-name header passes the checksum test, has typeflag 'L' and reads as the name length |
| TarReader.ReadDirectoryRecord | src/main.rs:206-243 | reading a written directory record gives back its full name, the directory typeflag, no content, and the record's length |
| TarReader.ReadFileRecord | src/main.rs:245-314 | reading a written file record gives back its full name, the file typeflag and its content, and the record's length |
| TarReader.HeaderMagic | src/main.rs:238 | a written header is never an all-zero block |
| TarReader.RecordStartsNonZero | src/main.rs:229-242 | every written record starts with a block that is not all zeros, so no record reads as the end of the archive |
| TarReader.ReadArchiveRoundTrip | src/main.rs:206-330 | reading the records of a sequence of members followed by the end marker gives back exactly those members, in order |

## Left out

- Command-line parsing (src/main.rs:10-51) and the choice of output sinks and the check that stdout is used at most once (src/main.rs:361-387) are not modelled.
- The two sinks are byte buffers that never fail, so the `?` early returns on I/O errors are not modelled.
- Archive.TarOutput.WriteFile: the file contents are given as a sequence of non-empty chunks of at most 512 bytes. Read errors and the file open are not modelled.
- Archive.TarOutput.WriteFile: the size mismatch panic is an explicit `SizeMismatch` result. It keeps the bytes already written.
- Archive.TarOutput.WriteFile: a size or long-name length that needs more than 11 octal digits makes the `clone_from_slice` into the 12-byte field panic. The model returns `FieldOverflow` at that point instead.
- Archive.TarOutput.WriteFile: `already_read` is a `u64` in the Rust program. The model uses an unbounded count, since no file reaches 2^64 bytes.
- SHA-512 is kept abstract, as a function from bytes to bytes. The hasher's incremental `update` calls are modelled as hashing the concatenation of the same bytes.
- The regular-expression engine is not modelled. `excluded` is an arbitrary predicate on file names, and `--dot-files-excluded` is one more pattern inside it.
- The file system is a map from paths to nodes.
  - `symlink_metadata`, `read_dir`, `canonicalize` and the resolved stat are lookups in it.
  - The failing `expect` calls of the stat, the prefix strip and the link resolution each become a `WalkError`, as does `unreachable!`.
  - A symbolic link node carries the canonical path `canonicalize` would return. How that path is resolved is not modelled.
- Paths are sequences of byte-string components. UTF-8 checks (`to_str().unwrap()`) and `OsStr` details are not modelled.
- Walk.Classify: `read_dir` failing on a directory (src/main.rs:155-157) is not modelled, because every directory node lists its entries. An error on one entry mid-listing (src/main.rs:158) is not modelled either.
- `canonicalize` of the input and `input.parent()` are not modelled. The walk starts from a given root path, and the root's parent is the base directory.
- A `--main-dir-name ""` passes validation. The input directory's member then gets the empty name, and its children get top-level names. The model states this in `TarNameUnderEmptyName` and excludes it from `DistinctTarNames`.
- The loop in `main` that passes each item to `tar_write_dir` or `tar_write_file` and then writes the end marker (src/main.rs:398-432) is not modelled as one method. Its pieces are modelled instead: `Walk`, `Naming.TarName`, the `Archive` writer methods, and `TarReader.ReadArchiveRoundTrip` over a sequence of written members.
- The reader in `TarReader` does not exist in the Rust program. It is a minimal ustar/GNU long-name reader written as the writer's partner for the round-trip property, and it reads only what the writer produces.
