# piget object store in Dafny

A model of the core of piget, a small Git-compatible object store written in
C++.

- **Objects.** Every object is a byte buffer `"<type> <length>\0<payload>"`, named by the SHA-1 of that buffer.
- **Encodings and parsers.** Trees, commits and user lines have serialisers and parsers.
- **Object ids.** Ids are written as 40 lower-case hex digits.
- **Loose store (`GitCAM`).** Each object lives zlib-compressed at `xx/yyyy…`, below the store root.
- **Packs.** A `Pack` is a data blob plus an index that `get` binary-searches. `WritePack` and `CreateIndexFile` produce a pack stream and its index file in the version-2 layout.
- **Database.** The database asks the loose store first, then the packs in attachment order.
- **Staging index (`Index`).** The staging index is an ordered map from paths to stat records:
  - `load` reads it from the dircache format, version 2, and `save` builds those bytes (the source never writes them to disk);
  - `add` and `remove` update it;
  - `toTree` folds it into a tree of trees stored in the loose store.

## Modules

| module | file | what it holds |
|---|---|---|
| `Wrappers` | wrappers.dfy | `Option`, `Result`, and the error kinds standing for the C++ exceptions |
| `Bytes` | bytes.dfy | byte strings, `find`, `find_first_of`, `find_last_of`, and the unsigned lexicographic order |
| `Numerals` | numerals.dfy | `std::to_string`, `%06o`, `%+05d`, `std::stol` in bases 8 and 10, and the 16-bit casts |
| `Endian` | endian.dfy | the `add32be`/`read32be`/`read32le` word codecs of the Bini writer and reader |
| `Ids` | ids.dfy | `asId` and `fromId` |
| `Text` | text.dfy | `split` |
| `Users` | users.dfy | `User` and `UserWithTime` with their `to_string`/`from_string` |
| `Objects` | objects.dfy | the framing, `type()`, `data()`, `id()`, and the blob constructor |
| `Trees` | trees.dfy | `DirEntry`, `Tree`, `Object(Tree)`, `readAsTree`, and the contract of `Tree::set`/`get` |
| `Commits` | commits.dfy | `Commit` and its builder, `Object(Commit)`, `readAsCommit` |
| `Paths` | paths.dfy | `std::filesystem::path` as a sequence of components, with `parent_path`, `filename` and the `std::map` order |
| `PathMaps` | pathmaps.dfy | `std::map<path, V>` as a sorted association list, with `[]=`, `insert`, `erase` and `find` |
| `Primitives` | primitives.dfy | SHA-1, CRC32, zlib and the Bini varint as function parameters |
| `LooseStore` | gitcam.dfy | the class `GitCAM` over a file-system map |
| `Packs` | packs.dfy | `Pack::IndexEntry`, `CreateIndexFile`, the size/type header, and `Pack::get` |
| `ObjectDatabase` | database.dfy | the class `Database` |
| `PackWriting` | packwriter.dfy | `WritePack` |
| `IndexFormat` | indexformat.dfy | `Index::Entry`, and the byte format of `save` and `load` |
| `TreeBuilding` | treebuilder.dfy | `toTree` as functions: initial trees, loading ancestors, staging each entry, linking trees bottom-up |
| `Staging` | staging.dfy | the class `Index` with `add`, `remove`, `load`, `save` and `toTree` as methods proved against those functions |

## How the model reads

- **Methods and classes.** Imperative C++ becomes Dafny methods with loops. Each method is proved equal to a specification function, and the properties are lemmas about that function.
  - `asId`, `fromId`, `split`, `Object(Tree)`, `readAsTree` and `readAsCommit` are methods.
  - The `CreateIndexFile` loops are methods, and so are `WritePack`, `Pack::get`'s binary search, `Index::save` and `Index::load`.
  - `toTree` is a method, with its worklist stack.
  - `GitCAM`, `Database` and `Index` are classes whose fields the methods update.
- **External functions.** SHA-1, CRC32, zlib, inflate and the Bini varint are fields of a `Primitives` value, and every operation that needs them takes it as a parameter. Results that need inflate to undo deflate carry `Lossless(p)` as a hypothesis.
- **Files and exceptions.** The file system is a map from paths to nodes. File contents and `stat` results are inputs. A thrown exception is an `Err` result naming the error, and an operation that throws leaves the state the source leaves.
- **Kept as written.** These behaviours are kept as the source has them, each marked in a comment:
  - `fromId` decodes any non-hex ASCII character as 0;
  - the leaf `DirEntry` holds the whole staged path;
  - the parent commit's object is read with `readAsTree`;
  - `add` uses `map::insert`;
  - `filesize` is written big-endian and read little-endian;
  - the pack magic is 0x4F41434B;
  - `CreateIndexFile` refers to a large offset by the byte size of the large table so far (see Findings). `WriteIndexFile`, `CreateIndexFile` and `WritePack` produce that file, `Packs.IndexFile`; the file the version-2 format calls for is `Packs.IntendedIndexFile`.

## Model

| member | source | states |
|---|---|---|
| Ids.AsId | libpiget/src/Object.cpp:51-59 | two characters per input byte, all lower-case hex, high nibble first; equal to `Hex(input)` |
| Ids.HexAt | libpiget/src/Object.cpp:54-57 | characters 2i and 2i+1 of the hex text are the digits of byte i's high and low nibble |
| Ids.FromId | libpiget/src/Object.cpp:24-49 | fails with the invalid-id error exactly when the input is not 40 characters; otherwise byte i combines the lookup-table nibbles of characters 2i and 2i+1 |
| Ids.DecodeId | libpiget/src/Object.cpp:43-48 | the error happens if and only if the length is not 40 |
| Ids.UnhexAt | libpiget/src/Object.cpp:45-47 | byte i of the decoded id comes from characters 2i and 2i+1 |
| Ids.UnhexHex | libpiget/src/Object.cpp:24-59 | decoding the hex text of any byte string gives it back |
| Ids.HexRoundTrip | libpiget/src/Object.cpp:24-59 | `fromId(asId(b)) == b` for every 20-byte id |
| Ids.Canonical | libpiget/src/Object.cpp:25-42 | each character has a lower-case hex digit that decodes to the same nibble |
| Ids.DecodeIdCanonical | libpiget/src/Object.cpp:25-46 | decoding is unchanged when `A`-`F` become `a`-`f` and every non-hex ASCII character becomes `0`, so those decode as 0 |
| Text.Split | libpiget/src/Object.cpp:10-22 | one more piece than separator occurrences; no piece contains the separator; joining the pieces with it rebuilds the input |
| Text.PushPiece | libpiget/src/Object.cpp:14-18 | one loop turn keeps the pieces so far a prefix of the split and moves `start` past the separator found |
| Text.SplitCount | libpiget/src/Object.cpp:10-22 | the number of pieces is the separator count plus one |
| Text.SplitPiecesFree | libpiget/src/Object.cpp:10-22 | no piece contains the separator |
| Text.JoinSplit | libpiget/src/Object.cpp:10-22 | joining the pieces with the separator gives back the input |
| Text.SplitJoin | libpiget/src/Object.cpp:10-22 | splitting the join of separator-free parts gives back the parts |
| Text.FindFirstOf | libpiget/src/Object.cpp:13 | a position found lies between `start` and the end |
| Users.UserText | libpiget/include/piget/Object.hpp:27-29 | the text is the user name, `" <"`, the e-mail and `">"`, each at its position |
| Users.ParseUserMeaning | libpiget/include/piget/Object.hpp:30-39 | if `" <"` or `'>'` is missing, or the last `'>'` comes first, the whole text is the user name and the e-mail is empty; otherwise the result's text is a prefix of the input ending at its last `'>'` |
| Users.ParsedUser | libpiget/include/piget/Object.hpp:35-37 | the name runs up to the first `" <"` and the e-mail up to the last `'>'` |
| Users.UserRoundTrip | libpiget/include/piget/Object.hpp:27-39 | `from_string(to_string(u)) == u` when the user name contains no `" <"` |
| Users.ParseUwt | libpiget/include/piget/Object.hpp:51-62 | fails with the invalid-user error when `"> "` or every space is missing; otherwise it fails only with a number error from `stol` |
| Users.UwtFields | libpiget/include/piget/Object.hpp:58-61 | the time and timezone fields fail only with a number error |
| Users.EmailCloseAt | libpiget/include/piget/Object.hpp:53 | in a formatted line of a well-formed user, the first `"> "` is the one that ends the e-mail |
| Users.LastSpace | libpiget/include/piget/Object.hpp:54 | the last space of a formatted line is the one before the timezone |
| Users.ParseUwtAt | libpiget/include/piget/Object.hpp:53-61 | the user is read up to `"> "`, the time between it and the last space, and the timezone after it, cast to 16 bits |
| Users.UwtRoundTrip | libpiget/include/piget/Object.hpp:46-62 | `from_string(to_string(w)) == w` for a well-formed user: no `" <"` or `"> "` in the name, no `"> "` in the e-mail, and a name that does not end in `'>'` |
| Numerals.Octal6 | libpiget/src/Object.cpp:85 | `%06o` of a 16-bit mode is six characters |
| Numerals.TimezoneText | libpiget/include/piget/Object.hpp:48 | `%+05d` is at least five characters |
| Numerals.TimezoneTextShape | libpiget/include/piget/Object.hpp:48 | `%+05d` is a sign followed by decimal digits |
| Numerals.DigitsAreDigits | libpiget/include/piget/Object.hpp:49 | `std::to_string` of a natural number is made of digits only |
| Numerals.ValueOfDigits | libpiget/include/piget/Object.hpp:49 | the digits of `n` have value `n` |
| Numerals.ValueIgnoresLeadingZeros | libpiget/src/Object.cpp:85 | leading zeros do not change a value |
| Numerals.StoL | libpiget/include/piget/Object.hpp:59-60 | `std::stol` gives a value in the 64-bit range, or fails with invalid-number or out-of-range |
| Numerals.StoLOfDigits | libpiget/include/piget/Object.hpp:59-60 | an optionally signed digit run reads as its value, negated after `-`, and fails only when outside the 64-bit range |
| Numerals.StoLSignedDecimal | libpiget/include/piget/Object.hpp:49-59 | `stol(to_string(i)) == i` for every 64-bit `i` |
| Numerals.StoLTimezone | libpiget/include/piget/Object.hpp:48-60 | `stol` of the `%+05d` text of a 16-bit timezone gives it back |
| Numerals.StoLOctal6 | libpiget/src/Object.cpp:85-104 | `stol(…, 8)` of the `%06o` text of a mode gives it back |
| Numerals.ToI16 | libpiget/include/piget/Object.hpp:60 | the cast to `int16_t` lies in range and keeps values already in range |
| Numerals.ToU16 | libpiget/src/Object.cpp:104 | the cast to `uint16_t` lies in range and keeps values already in range |
| Objects.TypeCode | libpiget/include/piget/Object.hpp:85-90 | the enumeration value is -1 exactly for Invalid, and 1 to 3 otherwise |
| Objects.TagOf | libpiget/src/Object.cpp:172-185 | each type's tag is recognised as that type and contains neither space nor NUL |
| Objects.CString | libpiget/src/Object.cpp:173-174 | the C string `strchr` scans is a NUL-free prefix of the buffer |
| Objects.TypeOfPrefix | libpiget/src/Object.cpp:172-185 | a recognised type means the buffer starts with its tag and a space |
| Objects.DataOf | libpiget/src/Object.cpp:187-191 | the payload is exactly the bytes after the first NUL |
| Objects.FrameParts | libpiget/src/Object.cpp:118-121 | in `"<tag> <decimal length>\0<payload>"` the first NUL ends the header, the first space ends the tag, and the payload follows |
| Objects.TypeOfFrame | libpiget/src/Object.cpp:172-185 | `type()` of a framed buffer is the type its tag names |
| Objects.TypeOfTagged | libpiget/src/Object.cpp:176-181 | a buffer starting with a type's tag and a space has that type |
| Objects.DataOfFrame | libpiget/src/Object.cpp:187-191 | `data()` of a framed buffer is its payload |
| Objects.BlobObject | libpiget/src/Object.cpp:65-71 | a file's object is a blob whose data is the file's bytes |
| Trees.EntryBytes | libpiget/src/Object.cpp:84-91 | an entry takes 28 bytes plus its name |
| Trees.TreePayloadLength | libpiget/src/Object.cpp:75-78 | the payload is as long as the precomputed `dataLength` |
| Trees.TreePayloadAppend | libpiget/src/Object.cpp:83-92 | each entry adds its bytes and 28 plus its name to the length |
| Trees.PayloadLength | libpiget/src/Object.cpp:75-78 | the loop computes `dataLength` as the sum of 28 plus each name |
| Trees.Blit | libpiget/src/Object.cpp:86-91 | a `memcpy` puts its bytes at the write pointer and keeps what is before it |
| Trees.WriteEntry | libpiget/src/Object.cpp:84-91 | the mode, name, NUL and hash of one entry are written at the pointer |
| Trees.WriteNext | libpiget/src/Object.cpp:83-92 | one loop turn extends the written prefix by one entry |
| Trees.EncodeTree | libpiget/src/Object.cpp:73-93 | the buffer is `"tree " + decimal(P) + NUL + payload` with P the sum of 28 plus each name, each entry `%06o`, a space, the name, a NUL and 20 hash bytes |
| Trees.DataLengthPrefix | libpiget/src/Object.cpp:75-78 | the length of a prefix of the entries is at most that of all |
| Trees.ReadEntry | libpiget/src/Object.cpp:102-107 | one turn consumes at least one byte and fails only on truncation or a bad octal mode |
| Trees.ParseEntries | libpiget/src/Object.cpp:101-108 | the loop fails only on truncation or a bad octal mode |
| Trees.DecodeTree | libpiget/src/Object.cpp:95-110 | a non-tree object gives the corrupt-repository error, and other failures come from reading |
| Trees.ReadEntries | libpiget/src/Object.cpp:99-109 | the reader loop computes `ParseEntries` of the data |
| Trees.ReadAsTree | libpiget/src/Object.cpp:95-110 | the method computes `DecodeTree` |
| Trees.ReadEntryOf | libpiget/src/Object.cpp:84-107 | an entry written by `Object(Tree)` reads back as itself and consumes its own bytes |
| Trees.ParseEntriesOf | libpiget/src/Object.cpp:83-108 | the payload of entries without NUL in their names parses back to the same entries in the same order |
| Trees.TreeRoundTrip | libpiget/src/Object.cpp:73-110 | `readAsTree(Object(t)) == t` when no name contains NUL |
| Trees.DecodeTreeOfOther | libpiget/src/Object.cpp:96-98 | a commit or blob buffer gives the corrupt-repository error |
| Trees.FindName | libpiget/include/piget/Object.hpp:67-68 | the position found is the first entry with that name, and none means no entry has it |
| Trees.TreeSet | libpiget/include/piget/Object.hpp:67 | `set` replaces the entry with that name, or appends one when there is none |
| Trees.GetAfterSet | libpiget/include/piget/Object.hpp:67-68 | `get` of the name just set gives the new entry's hash |
| Trees.GetOtherAfterSet | libpiget/include/piget/Object.hpp:67-68 | `set` does not change `get` of any other name |
| Trees.SetUnderOtherName | libpiget/include/piget/Object.hpp:67-68 | setting under a name an entry whose own name differs leaves that name unresolved |
| Commits.NewCommit | libpiget/include/piget/Object.hpp:73 | the constructor sets root and author, takes the author as committer, and leaves no parent and an empty message |
| Commits.SetParent | libpiget/include/piget/Object.hpp:74 | sets the parent and leaves every other field |
| Commits.SetCommitter | libpiget/include/piget/Object.hpp:75 | sets the committer and leaves every other field |
| Commits.SetMessage | libpiget/include/piget/Object.hpp:76 | sets the message and leaves every other field |
| Commits.HeaderLines | libpiget/src/Object.cpp:113-116 | three header lines, or four with a parent |
| Commits.CommitBodyLines | libpiget/src/Object.cpp:113-117 | the body is the header lines joined by LF, a blank line, then the message |
| Commits.HeaderStep | libpiget/src/Object.cpp:134-146 | a header line never changes the message |
| Commits.ApplyHeaders | libpiget/src/Object.cpp:133-147 | the header fold never changes the message |
| Commits.DecodeCommit | libpiget/src/Object.cpp:124-149 | a non-commit gives the corrupt-repository error, and a commit without `"\n\n"` gives the no-message error |
| Commits.DecodedMessage | libpiget/src/Object.cpp:130-132 | the message is everything after the first `"\n\n"` |
| Commits.IgnoredLine | libpiget/src/Object.cpp:134-146 | a line without a space, or with an unknown name, is skipped |
| Commits.LaterTreeWins | libpiget/src/Object.cpp:142-143 | of two `tree` lines the later one sets the root |
| Commits.ReadTreeLine | libpiget/src/Object.cpp:142-143 | a `tree <hex>` line sets the root to that id |
| Commits.ReadParentLine | libpiget/src/Object.cpp:144-145 | a `parent <hex>` line sets the parent to that id |
| Commits.ReadAuthorLine | libpiget/src/Object.cpp:138-139 | an `author` line of a well-formed user sets the author |
| Commits.ReadCommitterLine | libpiget/src/Object.cpp:140-141 | a `committer` line of a well-formed user sets the committer |
| Commits.ApplyHeaderLines | libpiget/src/Object.cpp:113-147 | reading the header lines `Object(Commit)` writes restores root, parent, author and committer |
| Commits.BlankAfterHeaders | libpiget/src/Object.cpp:116-130 | the first `"\n\n"` is the one after the last header |
| Commits.DecodeHeaderLines | libpiget/src/Object.cpp:129-147 | a commit body of LF-free lines, a blank line and a message decodes as the fold of those lines over that message |
| Commits.CommitRoundTrip | libpiget/src/Object.cpp:112-149 | `readAsCommit(Object(c)) == c` when the users are well-formed and no user name or e-mail holds LF |
| Commits.DecodeCommitOfOther | libpiget/src/Object.cpp:125-127 | a tree or blob buffer gives the corrupt-repository error |
| Commits.ReadAsCommit | libpiget/src/Object.cpp:124-149 | the method computes `DecodeCommit` |
| Endian.ReadBE32Of | libpiget/src/Index.cpp:131-135 | `read32be` reads back what `add32be` wrote |
| Endian.ReadBE16Of | libpiget/src/Index.cpp:149 | `read16be` reads back what `add16be` wrote |
| Endian.ReadLE32OfBE32 | libpiget/src/Index.cpp:147 | `read32le` of the bytes `add32be` wrote gives the byte-swapped word |
| Endian.ReadBE64Of | libpiget/src/Pack.cpp:33 | a 64-bit big-endian word reads back as itself |
| Endian.Words32At | libpiget/src/Pack.cpp:24-30 | word i of a run of `add32be` words sits at bytes 4i..4i+4 and reads back |
| Endian.ToU32 | libpiget/src/Index.cpp:90-99 | the store into a `uint32_t` field keeps values in range |
| Paths.ParentPath | libpiget/src/Index.cpp:50-53 | `parent_path` drops the last component, and the root is its own parent |
| Paths.FileName | libpiget/src/Index.cpp:54 | `filename` is the last component, and empty for the root |
| Paths.ParentAndFileName | libpiget/src/Index.cpp:71 | a path is its parent followed by its file name |
| Paths.ParsePathText | libpiget/src/Index.cpp:157-158 | a path read back from its text is the same path |
| Paths.PathLessIrreflexive | libpiget/src/Index.cpp:37 | the `std::map` key order is irreflexive |
| Paths.PathLessTransitive | libpiget/src/Index.cpp:37 | the order is transitive |
| Paths.PathLessTotal | libpiget/src/Index.cpp:37 | any two distinct paths are ordered |
| Paths.PathLessAsymmetric | libpiget/src/Index.cpp:37 | the order is asymmetric |
| Paths.PrefixPathLess | libpiget/src/Index.cpp:73-74 | a proper prefix sorts first |
| Paths.ParentLess | libpiget/src/Index.cpp:73-78 | a directory's parent sorts before it, so the greatest key is never the parent of another |
| PathMaps.FindIsLookup | libpiget/src/Index.cpp:53 | `find` on the sorted list is lookup in the map it stands for |
| PathMaps.AssignSpec | libpiget/src/Index.cpp:158 | `operator[]=` keeps the list sorted and sets the key |
| PathMaps.InsertSpec | libpiget/src/Index.cpp:106 | `insert` keeps the list sorted and adds the key only when absent |
| PathMaps.EraseSpec | libpiget/src/Index.cpp:110 | `erase` keeps the list sorted and removes exactly that key |
| PathMaps.DropLast | libpiget/src/Index.cpp:74-76 | removing the last element removes the greatest key |
| LooseStore.ShardPath | libpiget/src/GitCAM.cpp:27-28 | the shard path has two components, the first two hex digits and the other 38 |
| LooseStore.ShardLayout | libpiget/src/GitCAM.cpp:28-36 | the shard directory is the first component, and the file lies below it |
| LooseStore.ShardPathInjective | libpiget/src/GitCAM.cpp:27-28 | distinct ids have distinct shard paths |
| LooseStore.GitCAM.constructor | libpiget/src/GitCAM.cpp:10-13 | the store starts on the given file system |
| LooseStore.GitCAM.ShardFile | libpiget/src/GitCAM.cpp:44-45 | `get` computes the same shard path as `add` |
| LooseStore.GitCAM.Add | libpiget/src/GitCAM.cpp:25-41 | the result and the new file system are those of `StoreAdd` |
| LooseStore.GitCAM.Get | libpiget/src/GitCAM.cpp:43-53 | the result is that of `StoreGet` |
| LooseStore.AddReturnsId | libpiget/src/GitCAM.cpp:26-39 | `add` returns `object.id()` on every path that does not throw |
| LooseStore.AddOutcomes | libpiget/src/GitCAM.cpp:29-40 | an existing regular file changes nothing; any other node at the path throws "broken repository"; otherwise the compressed buffer is written |
| LooseStore.AddFrame | libpiget/src/GitCAM.cpp:36-38 | no path other than the shard file and its directory changes |
| LooseStore.AddIdempotent | libpiget/src/GitCAM.cpp:29-31 | a second `add` of the same object changes nothing |
| LooseStore.GetAfterAdd | libpiget/src/GitCAM.cpp:37-52 | `get(add(o))` is `o`, given that inflate undoes deflate |
| LooseStore.GetOtherAfterAdd | libpiget/src/GitCAM.cpp:43-53 | `add` does not change `get` of any other id |
| ObjectDatabase.Database.constructor | libpiget/src/Database.cpp:4-8 | a new database has a store on the given file system and no packs |
| ObjectDatabase.Database.Get | libpiget/src/Database.cpp:10-19 | the result is that of `DatabaseGet`: loose store, then packs in order |
| ObjectDatabase.Database.Add | libpiget/src/Database.cpp:21-23 | writes only to the loose store, and the pack list is unchanged |
| ObjectDatabase.Database.AddPack | libpiget/src/Database.cpp:25-27 | appends the pack at the end and leaves the store |
| ObjectDatabase.LooseStoreFirst | libpiget/src/Database.cpp:12-13 | a loose-store hit is returned without consulting packs |
| ObjectDatabase.FirstPackWins | libpiget/src/Database.cpp:14-17 | otherwise the first pack in attachment order that has the id answers |
| ObjectDatabase.PacksGetAt | libpiget/src/Database.cpp:14-17 | the pack loop returns the first pack's hit |
| ObjectDatabase.PacksGetNone | libpiget/src/Database.cpp:14-18 | the pack loop finds nothing exactly when no pack has the id |
| ObjectDatabase.DatabaseGetNone | libpiget/src/Database.cpp:10-19 | `get` returns none exactly when neither the store nor any pack has the id |
| ObjectDatabase.DatabaseGetAbsent | libpiget/src/Database.cpp:10-19 | for sorted pack indexes, that is: no regular file at the shard path and no index entry with the id |
| ObjectDatabase.AddPackKeepsHits | libpiget/src/Database.cpp:25-27 | attaching a pack does not change an id already found |
| ObjectDatabase.PacksAppend | libpiget/src/Database.cpp:25-27 | a later pack never shadows an earlier pack's hit |
| ObjectDatabase.GetAfterDatabaseAdd | libpiget/src/Database.cpp:21-23 | an object added is found by its id |
| Packs.InsertById | libpiget/src/Pack.cpp:11-17 | insertion adds exactly the one entry |
| Packs.InsertByIdSorted | libpiget/src/Pack.cpp:11-17 | insertion keeps the order by id |
| Packs.SortIndex | libpiget/src/Pack.cpp:11-17 | the result is sorted by unsigned lexicographic id order and is a permutation of the input |
| Bytes.LessTransitive | libpiget/src/Pack.cpp:12-16 | the comparator is transitive |
| Bytes.LessTotal | libpiget/src/Pack.cpp:12-16 | the comparator orders any two distinct ids |
| Bytes.LessAsymmetric | libpiget/src/Pack.cpp:12-16 | the comparator is asymmetric |
| Packs.SortedFirstByte | libpiget/src/Pack.cpp:19-26 | in sorted order the first bytes do not decrease |
| Packs.CountUpToMonotone | libpiget/src/Pack.cpp:19-26 | the fan-out counts do not decrease |
| Packs.CountUpToAll | libpiget/src/Pack.cpp:36-39 | the count for byte 255 is the entry count |
| Packs.CountUpToSplits | libpiget/src/Pack.cpp:19-26 | in sorted order entry k is counted for byte b exactly when its first byte is at most b |
| Packs.FanoutWord | libpiget/src/Pack.cpp:19-26 | fan-out word i is the number of ids whose first byte is at most i |
| Packs.FillFanout | libpiget/src/Pack.cpp:23-26 | the `while (lastId < start)` loop writes the fan-out words up to `start` |
| Packs.IdTableAt | libpiget/src/Pack.cpp:28 | id i sits at bytes 20i..20i+20 of the id table |
| Packs.CrcTableAt | libpiget/src/Pack.cpp:27 | CRC i sits at bytes 4i..4i+4, in parallel with the ids |
| Packs.LargeRef | libpiget/src/Pack.cpp:32 | the reference to large offset k is `k \| 0x80000000` |
| Packs.Offsets | libpiget/src/Pack.cpp:29-34 | one offset word per entry |
| Packs.OffsetsAt | libpiget/src/Pack.cpp:29-34 | in the version-2 table, a large entry's word is `k \| 0x80000000`, with `k` the number of large entries before it; a small entry's word is its offset |
| Packs.OffsetsAsWrittenAt | libpiget/src/Pack.cpp:29-34 | in the table as written, a large entry's word is `8k \| 0x80000000`; a small entry's word is its offset |
| Packs.LargeOffsetsAt | libpiget/src/Pack.cpp:29-34 | the large offsets before entry i are a prefix of the large table, and a large entry i comes right after that prefix |
| Packs.OffsetsAsWritten | libpiget/src/Pack.cpp:32 | one offset word per entry, with large offsets referenced by the byte size of the large table |
| Packs.LargeRefAsWrittenMisreads | libpiget/src/Pack.cpp:29-34 | when the large offsets are distinct and fit the table, an offset reads back from the words as written if and only if it is small or the first large one |
| Packs.LargeRefMisreadExample | libpiget/src/Pack.cpp:32 | with two large offsets, the second's word is 0x80000008, a reader following the index format finds no large offset there, and the version-2 table reads 0x80000001 |
| Packs.OffsetRoundTrip | libpiget/src/Pack.cpp:29-34 | every entry's offset is recovered from the offset words: directly below 0x80000000, else through the large table |
| Packs.ReadOffsetBytesWords | libpiget/src/Pack.cpp:29-34 | reading offsets from the written bytes is reading them from the words |
| Packs.AddOffset | libpiget/src/Pack.cpp:29-34 | one loop turn appends entry n's offset word as written (a large one refers to the byte size of the large table) and, when large, its 64-bit offset |
| Packs.IndexFileLayout | libpiget/src/Pack.cpp:40-46 | the file is magic 0xFF744F63, version 2, 256 fan-out words, ids, CRCs, the given offset words and large offsets, in that order; for `IndexFile` the offset words are `OffsetsAsWritten` |
| Packs.IndexFileId | libpiget/src/Pack.cpp:28-43 | entry i's id is at its position in the file |
| Packs.IndexFileCrc | libpiget/src/Pack.cpp:27-44 | entry i's CRC is at its position in the file |
| Packs.IndexFileOffset | libpiget/src/Pack.cpp:29-46 | reading entry i's offset from the bytes of the file as written gives it back if and only if it is small or the first large one (large offsets distinct and fitting the table) |
| Packs.IntendedIndexFileOffset | libpiget/src/Pack.cpp:29-46 | in the file the version-2 format calls for, every entry's offset is recovered from the offset tables |
| Packs.IndexFileFanout | libpiget/src/Pack.cpp:19-42 | fan-out word b of the file counts the ids with first byte at most b, and the last word is the entry count |
| Packs.WriteIndexFile | libpiget/src/Pack.cpp:18-47 | on sorted entries the writer loops produce `IndexFile`, the file as written, with the `OffsetsAsWritten` words |
| Packs.CreateIndexFile | libpiget/src/Pack.cpp:10-48 | the result is the index file as written of a sorted permutation of the entries |
| Packs.TypeBits | libpiget/src/Pack.cpp:64 | the type field of a valid type is 1 to 3 |
| Packs.HeaderTypeRoundTrip | libpiget/src/Pack.cpp:64-96 | `(v >> 4) & 7` recovers any type below 8 |
| Packs.HeaderSizeRoundTrip | libpiget/src/Pack.cpp:64-97 | the unpacked size is the size cut to 56 bits |
| Packs.HeaderRoundTrip | libpiget/src/Pack.cpp:64-97 | packing and unpacking are inverse for types below 8 and sizes below 2^56 |
| Packs.HeaderOfInvalid | libpiget/src/Pack.cpp:64-97 | the Invalid type (-1) fills the whole header: it unpacks as type 7 and a size with all high bits set |
| Packs.FirstNotBelowSpec | libpiget/src/Pack.cpp:108-114 | every entry before the bound is below the id, and the entry at the bound is not |
| Packs.FirstNotBelowAt | libpiget/src/Pack.cpp:108-114 | that split point is unique |
| Packs.LowerBoundFrom | libpiget/src/Pack.cpp:108-114 | the halving search stays inside its range |
| Packs.LowerBoundFromSorted | libpiget/src/Pack.cpp:108-114 | on a sorted index the halving search finds the first entry not below the id |
| Packs.LowerBoundSorted | libpiget/src/Pack.cpp:108-114 | `lower_bound` is that first entry |
| Packs.LowerBound | libpiget/src/Pack.cpp:108-114 | the search loop computes `LowerBoundOf` |
| Packs.Subspan | libpiget/src/Pack.cpp:117 | `subspan(offset)` is the data after the offset |
| Packs.PackGet | libpiget/src/Pack.cpp:107-118 | the method computes `PackLookup` |
| Packs.PackLookupSound | libpiget/src/Pack.cpp:115-117 | a hit comes from an entry with exactly that id, inflated from its offset |
| Packs.PackLookupComplete | libpiget/src/Pack.cpp:107-118 | on a sorted index `get` hits if and only if some entry has that id |
| PackWriting.StreamHeader | libpiget/src/Pack.cpp:51-54 | the stream header is twelve bytes |
| PackWriting.WritePack | libpiget/src/Pack.cpp:50-70 | fails with invalid-object-id exactly when some id is missing from the database; otherwise it returns the pack stream and the index file as written of a sorted permutation of its entries |
| PackWriting.AddObject | libpiget/src/Pack.cpp:62-66 | one loop turn appends the object's record and an entry whose offset is the bytes written so far |
| PackWriting.RecordsStep | libpiget/src/Pack.cpp:56-67 | the loop over one more id extends stream and index by that object |
| PackWriting.RecordsFail | libpiget/src/Pack.cpp:57-60 | the loop fails exactly when some id is missing, and then with invalid-object-id |
| PackWriting.FailingId | libpiget/src/Pack.cpp:57-60 | a failure names a missing id |
| PackWriting.MissingIdFails | libpiget/src/Pack.cpp:57-60 | any missing id makes the loop fail |
| PackWriting.RecordsPrefix | libpiget/src/Pack.cpp:56-67 | the loop over a prefix of the ids writes a prefix of the stream and of the index |
| PackWriting.RecordsCount | libpiget/src/Pack.cpp:55-62 | one index entry per id, and the stream starts with what was written before |
| PackWriting.RecordAt | libpiget/src/Pack.cpp:62 | entry k follows input order, with the offset being the stream length before object k |
| PackWriting.OffsetsIncrease | libpiget/src/Pack.cpp:56-67 | offsets do not decrease along the input, and strictly increase past a non-empty record |
| PackWriting.SizeWordUnpacks | libpiget/src/Pack.cpp:63-97 | the size word of an object below 2^56 bytes unpacks to its type and data size |
| PackWriting.RecordNotEmpty | libpiget/src/Pack.cpp:65 | a record is non-empty when the varint never is |
| PackWriting.StreamBegins | libpiget/src/Pack.cpp:52-54 | the stream starts with 0x4F41434B, version 2, and the id count |
| PackWriting.StreamTrailer | libpiget/src/Pack.cpp:68 | the last 20 bytes are SHA-1 of all bytes before them |
| IndexFormat.NameLength | libpiget/src/Index.cpp:100 | the length field is the name length capped at 0xFFF |
| IndexFormat.Padding | libpiget/src/Index.cpp:152 | `7 - ((n + 6) % 8)` is at most 7 |
| IndexFormat.FlagsWordParts | libpiget/src/Index.cpp:179-180 | the written flags keep the top four bits and carry the capped name length, so flags set by `add` are written unchanged |
| IndexFormat.StatWords | libpiget/src/Index.cpp:168-177 | ten stat words |
| IndexFormat.NameField | libpiget/src/Index.cpp:181-182 | the name, its NUL and the padding |
| IndexFormat.EntryRecord | libpiget/src/Index.cpp:168-182 | an entry record is 63 bytes plus the name plus the padding |
| IndexFormat.EntryAligned | libpiget/src/Index.cpp:152-182 | each record is a multiple of 8 bytes, with 1 to 8 NULs after the name |
| IndexFormat.IndexHeader | libpiget/src/Index.cpp:164-166 | the header is twelve bytes |
| IndexFormat.SavedIndexLayout | libpiget/src/Index.cpp:162-185 | magic 0x44495243, version 2 and the entry count, then the records in key order, then SHA-1 of everything before |
| IndexFormat.IndexBodyAppend | libpiget/src/Index.cpp:167-183 | one more entry appends its record |
| IndexFormat.ReadWords | libpiget/src/Index.cpp:138-146 | one word per four bytes |
| IndexFormat.ReadWordsOf | libpiget/src/Index.cpp:138-146 | words written big-endian read back |
| IndexFormat.ReadStatOf | libpiget/src/Index.cpp:138-147 | the stat words read back, except that `filesize` comes back byte-swapped |
| IndexFormat.ReadEntry | libpiget/src/Index.cpp:137-156 | one turn consumes at least 64 bytes, and fails only when the reader runs out |
| IndexFormat.ReadEntryOf | libpiget/src/Index.cpp:137-152 | a record written by `save` reads back as the reloaded entry and consumes its own length |
| IndexFormat.LoadEntriesStep | libpiget/src/Index.cpp:136-159 | one turn assigns the entry under the path its name parses to |
| IndexFormat.LoadIndexChecked | libpiget/src/Index.cpp:122-135 | after the digest, magic and version checks, the loop reads the declared count of entries from byte 12 |
| IndexFormat.LoadEntriesOf | libpiget/src/Index.cpp:136-159 | the loop over saved records appends each reloaded entry |
| IndexFormat.Reload | libpiget/src/Index.cpp:147-149 | reloading keeps the number of entries |
| IndexFormat.SaveLoadRoundTrip | libpiget/src/Index.cpp:113-185 | `load(save(m))` reproduces every entry, with `filesize` byte-swapped and the flags as `save` wrote them |
| IndexFormat.ReloadMap | libpiget/src/Index.cpp:157-158 | as a map, the reloaded entries are the originals under the same keys |
| IndexFormat.LoadEntriesOutcome | libpiget/src/Index.cpp:154-156 | the loop keeps the map sorted, and a read failure names an item from n+1 to the count |
| IndexFormat.LoadOutcomes | libpiget/src/Index.cpp:113-160 | no file is a no-op; a bad digest, and only that, clears the entries and fails; a bad magic, and only that, fails with the invalid-magic error; other errors before the loop keep the entries |
| TreeBuilding.InitialPending | libpiget/src/Index.cpp:39-47 | the initial pending map holds only the root |
| TreeBuilding.InitialTreesOutcomes | libpiget/src/Index.cpp:39-47 | no parent gives an empty root tree, and a parent the store lacks gives the invalid-parent-commit error |
| TreeBuilding.ParentCommitReadAsTree | libpiget/src/Index.cpp:44 | a parent that is a commit object is read as a tree and fails with the corrupt-repository error, so `toTree` fails before staging anything |
| TreeBuilding.AssignPending | libpiget/src/Index.cpp:61 | loading a tree under a path whose parent is pending keeps every ancestor pending |
| TreeBuilding.InsertPending | libpiget/src/Index.cpp:64 | `pendingTrees[path];` adds an empty tree only when none is pending |
| TreeBuilding.LoadDirectoryShape | libpiget/src/Index.cpp:53-65 | a directory is either added empty or assigned a loaded tree |
| TreeBuilding.LoadDirectoryPending | libpiget/src/Index.cpp:52-66 | after a directory is resolved it is pending, exactly one key is added, and other trees are kept |
| TreeBuilding.LoadAncestorsPending | libpiget/src/Index.cpp:49-70 | after the worklist empties, the directory and all its ancestors are pending, and every new key is a prefix of it |
| TreeBuilding.AncestorsPending | libpiget/src/Index.cpp:49-70 | every prefix of a pending directory is pending |
| TreeBuilding.StageEntrySpec | libpiget/src/Index.cpp:49-71 | after one staged path, every ancestor directory has a pending tree and the entry is set in its parent's tree |
| TreeBuilding.StageAllPrefixErr | libpiget/src/Index.cpp:48-72 | an exception for one staged path ends the loop with that error |
| TreeBuilding.StageAllPending | libpiget/src/Index.cpp:48-72 | the building phase keeps the pending map closed under parents |
| TreeBuilding.TreeSetHolds | libpiget/src/Index.cpp:71 | the entry set is in the tree afterwards |
| TreeBuilding.LeafName | libpiget/src/Index.cpp:71 | for a top-level path the leaf's full-path name is its file name |
| TreeBuilding.LinkStep | libpiget/src/Index.cpp:74-78 | removing the greatest key keeps the map closed under parents, and sets that directory in its parent with its tree id |
| TreeBuilding.LinkTreesDone | libpiget/src/Index.cpp:73-81 | when only the root remains, the root object is returned unstored |
| TreeBuilding.LinkTreesKeepsFiles | libpiget/src/Index.cpp:79 | storing trees never changes an existing regular file |
| TreeBuilding.AddKeepsFile | libpiget/src/GitCAM.cpp:29-38 | `add` never changes an existing regular file |
| TreeBuilding.LinkTreesStoresLast | libpiget/src/Index.cpp:77-79 | the tree of the greatest directory can be read back from the store afterwards |
| Staging.StageFileSpec | libpiget/src/Index.cpp:84-107 | a failed `stat` gives the stat error; a failure keeps entries and file system; success adds the staged entry only when the path is absent |
| Staging.StageFileStoresBlob | libpiget/src/Index.cpp:103-105 | the staged hash names the file's blob, which the store gives back |
| Staging.StagedStorable | libpiget/src/Index.cpp:100-158 | a staged entry of a valid path reads back under the same path, differing only in its byte-swapped `filesize` |
| Staging.StorableAssign | libpiget/src/Index.cpp:158 | assigning an entry whose name parses to its key keeps every entry's name in agreement with its key |
| Staging.StorableErase | libpiget/src/Index.cpp:110 | `erase` keeps that agreement |
| Staging.StageFileStorable | libpiget/src/Index.cpp:84-107 | `add` keeps that agreement |
| Staging.UnwindPop | libpiget/src/Index.cpp:52-66 | when the top's parent is pending, the top is resolved and popped |
| Staging.UnwindPush | libpiget/src/Index.cpp:67-69 | otherwise pushing the parent does not change what the worklist computes |
| Staging.LinkTreesStep | libpiget/src/Index.cpp:73-80 | one turn of the final loop stores the greatest tree and links it into its parent |
| Staging.WriteRecord | libpiget/src/Index.cpp:168-182 | the writer appends exactly one entry record |
| Staging.Index.constructor | libpiget/src/Index.cpp:19-27 | a new index is empty and uses the given store |
| Staging.Index.Add | libpiget/src/Index.cpp:84-107 | entries, file system and result are those of `StageFile` |
| Staging.Index.Remove | libpiget/src/Index.cpp:109-111 | the entries become `erase` of the path |
| Staging.Index.Load | libpiget/src/Index.cpp:113-160 | entries and result are those of `LoadIndex` |
| Staging.Index.Save | libpiget/src/Index.cpp:162-185 | the bytes written are `SavedIndex` of the entries |
| Staging.Index.LoadTree | libpiget/src/Index.cpp:53-65 | resolving one directory is `LoadDirectory` |
| Staging.Index.LoadTrees | libpiget/src/Index.cpp:49-70 | the worklist loop is `LoadAncestors` |
| Staging.Index.StartTrees | libpiget/src/Index.cpp:39-47 | the start of `toTree` is `InitialTrees` |
| Staging.Index.StageOne | libpiget/src/Index.cpp:49-71 | one staged path is `StageEntry`, and keeps the map closed under parents |
| Staging.Index.StageEntries | libpiget/src/Index.cpp:48-72 | the building loop is `StageAll` over the entries |
| Staging.Index.StoreTrees | libpiget/src/Index.cpp:73-80 | the final loop is `LinkTrees`, including the trees it stores |
| Staging.Index.ToTree | libpiget/src/Index.cpp:36-82 | result and store are those of `BuildTree` |

## Left out

- File I/O and `stat`:
  - `Object(path)` takes the file's bytes as a parameter;
  - `Index::add` takes the `stat` result as an `Option<Stat>`;
  - `Index::load` takes the contents of `.git/index`, or `None` when it is not a regular file;
  - `Index::save` returns the bytes it builds, which the source also never writes.
- The source's `Index` constructor calls `load`, and its destructor calls `save`. Here `Staging.Index.constructor` starts empty, and `Load`/`Save` are separate methods.
- The lock in `Index` is left out: its branches are empty, and it is about concurrent processes.
- SHA-1, CRC32, zlib compress and decompress, and the Bini varint (`addPB`) have no definition. They are functions in `Primitives`. Only `Lossless` (decompress undoes compress) is assumed, and only as a hypothesis of the lemmas that need it.
- `Object::id()` is SHA-1 of the buffer, through `Primitives`. `Caligo`, `Decoco` and `Bini` are not part of this model.
- Where the Bini reader would read past the end (`getStringNT`, `getArray`, `read32be`), the model returns an error. `Index::load` checks `r.fail()`; `readAsTree` does not. The reader's own behaviour is not part of this model.
- IndexFormat.LoadIndex: a file shorter than the 20-byte digest is taken as a failed digest check, whereas the source computes a span of negative length.
- Objects.DataOf and Objects.TypeOf: for a buffer without NUL, or without a space before its first NUL, the source's behaviour is undefined. The model answers the empty payload and `Invalid`.
- Paths.ParsePath reads a staged `fileName` back into path components by splitting at `/`. How `std::filesystem::path` normalises empty, `.` or `..` components is not modelled. The round trip is proved for paths whose components are non-empty and free of `/`.
- Packs.SortIndex sorts a sequence by insertion, not `std::sort` in place. It keeps the ordering and permutation contract but not the in-place update or the stability.
- Tree::set and Tree::get are only declared in the source. Trees.TreeSet and Trees.TreeGet are the assumed contract: `set` replaces the first entry with that name or appends one, and `get` returns the hash of the first entry with that name.
- TreeBuilding.LoadDirectory: the source calls `cam.get` twice on the same id. Both calls see the same file system, so one lookup stands for both. The method `Staging.Index.LoadTree` makes both calls.
- TreeBuilding.LoadAncestors stops at the root explicitly. In the source the root is always pending, so the worklist stops there anyway.
- `Pack` construction is left out:
  - `Pack::LoadIndex` is an empty stub;
  - `RegenerateIndex` computes offsets from a shadowed local `data` and never sorts.
  Only its header unpacking is modelled (Packs.HeaderType, Packs.HeaderSize). A `Pack` is a value holding data and index.
- No round trip from `WritePack` to `Pack::get` is stated. `get` inflates from the entry offset, and that offset points at the size header, not at the zlib stream.
- `Object(Type, vector)` is left out: it is not declared in the header and reads a moved-from vector.
- main.cpp, Repository.cpp and Repository.hpp are not part of this model: they hold command-line dispatch and configuration stubs.
- Pack memory-mapping and span lifetimes are left out, as are `Database`'s raw `Pack*` ownership and the `Database` constructor's pending pack discovery.
- Ids.NibbleOf: a character of 0x80 or more indexes the C++ lookup table with a negative `char`, which is undefined. The model decodes it as 0, like the other non-hex characters, so Ids.DecodeIdCanonical says nothing about the source for such input.
- Commits.EmptyCommit: `Commit() {}` leaves the root id uninitialised. The model fixes it to twenty zero bytes, so nothing is promised about the root of a commit that `readAsCommit` does not fill in.
- Packs.Subspan: `subspan` with an offset past the end of the data is undefined in C++. The model gives the empty span, so Packs.PackLookup promises nothing about the source for such an entry.
- Endian.ToU32 and Numerals.ToU16 model C++'s truncating conversions as reduction modulo 2^32 and 2^16. The timezone cast Numerals.ToI16 is modelled the same way, as two's-complement wrap-around.

## Findings

| source | as written | input that shows it | evidently intended | confidence | as-written member | corrected member |
|---|---|---|---|---|---|---|
| libpiget/src/Pack.cpp:32 | a large offset's word is `largeoffsets.size() \| 0x80000000`, with `size()` being the byte length of the 64-bit table (8 per entry already written) | two entries with offsets 0x80000000 and 0x80000001: the second word is 0x80000008, which indexes the ninth large offset, and there are only two | the word holds the entry index `k` into the 64-bit table, as the version-2 pack index format prescribes, so the second word is 0x80000001 | not executed | Packs.OffsetsAsWritten, Packs.LargeRefAsWrittenMisreads, Packs.LargeRefMisreadExample, Packs.IndexFileOffset | Packs.Offsets, Packs.OffsetRoundTrip, Packs.IntendedIndexFileOffset |
