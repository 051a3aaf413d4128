# bitFS: bencode, metainfo, the on-demand file system and piece download

This project models four parts of the repository and proves what they promise.

**The heapless bencode reader** (`btclient/bencode/bencode.c`). A cursor `{str, start, len}`
walks a byte buffer; there is no tree and no explicit end. `CursorModel` gives every routine
as a function on *all* byte buffers: pointers are offsets, and a result is `Fault` when an
`assert` fires, a byte outside the buffer is read, a signed integer overflows or an
indeterminate value is used. `CursorCode` has the same routines as methods that move a cursor
object in place, each proved equal to its function. `Loose` is the grammar with superfluous
zeros allowed, which contains every encoding. `CursorProofs` and `CursorTheorems` show what
happens on its texts, `CursorProtocol` what any sequence of calls answers, `CursorRange`
exactly when the C integers suffice and how far validation and decoding agree, `CursorCut`
what becomes of dictionaries that are not closed, and `CursorReject` what becomes of text that
is broken at any place and depth.

**The reference decoder and encoder** (`btclient/bencode/tests/bencode/__init__.py`).
`Reference` is the recursive-descent decoder, `Canonical` the key-sorting encoder with
Python's view of dictionaries, `ReferenceCode` the loops that grow `r` and move `f`.

**The file system** (`FS.cpp`). `Paths` and `FileSystem` cover the three indexes that
`init_bitfs` builds and the calls that consult them. `ReadProtocol` is `FS::read` as a step
system: any number of calls, each with a program counter, and a session that completes pieces
and posts alerts when it likes; `ReadProofs` has the invariant, `ReadTheorems` what follows
for whole runs.

**Metainfo and piece download** (`btclient/bt_lib.c`). `Metainfo` and `MetainfoCode` read a
metainfo file through the cursor interface; `Download` has the piece arithmetic and the block
request loop over a byte stream that arrives in arbitrary fragments.

The grammar is section "bencoding" of BEP 3; files and messages follow its sections "metainfo
files" and "peer messages".

## Findings

Each of these is a lemma below.

- `bencode_validate` accepts what `bencode` writes exactly for values in range whose encoding
  has at most 2^31-1 bytes (`PropertyTestIff`). The property-based test draws integers without
  a bound; beyond 2^63-1 the reader overflows a `long`, and the length is passed as an `int`.
- `bencode_validate` accepts more than the reference decoder. Two families are decided exactly,
  for all numbers, lengths and rests. On a buffer that begins with a complete item, whose
  integers and lengths may have superfluous zeros or be -0, it answers 0 if and only if the
  numbers and the length fit; the decoder accepts the buffer if and only if no numeral has a
  superfluous zero or sign and nothing follows (`AcceptedBy`, `DigitStrings`, `TrailingData`;
  "i05e" is the witness of `ValidateIsLenient`). A dictionary whose closing byte is missing
  or is NUL or CR is likewise accepted if and only if the numbers and the length fit, and never
  decoded (`ValidateUnclosed`, `MissingEnd`, `OtherEnd`); so is the empty buffer
  (`NothingIsValid`).
- What `bencode_validate` rejects it rejects with -1 only in part: at a byte no value begins
  with, an integer without digits, a length without its colon, or a string too long for the
  buffer, at any depth. At an integer without its "e", or a key that has no digit or no colon, an
  assert fails instead (`BrokenIsRejected`). With a negative length it still accepts integers,
  dictionaries and empty lists (`NegativeLength`). For malformed bytes outside these families
  nothing is claimed.
- `bencode_dict_get_start_and_len` gives length 1 for the empty dictionary and the right bytes
  for every other (`DictSpan`).
- `bencode_dict_get_next` past the last entry is a failed assert, unless the dictionary is
  empty and not opened yet (`DictProtocol`); `bencode_list_get_next` answers 0 there.
- File and piece lengths above 2^31-1 are cut to 32 bits: `parse_metainfo` records the encoded
  lengths if and only if both are at most 2^31-1 (`SingleFileExtraction`). A file of 2^31 bytes
  gets the length -2^31 and a negative piece count (`LongFileIsMisread`).
- Whether a metainfo file is read without a `Fault` as defined above depends on its two
  lengths: both must be present (in a torrent of several files there is no `length`), the piece
  length must not be 0 modulo 2^32, and the quotient must fit (`ParsesIff`). Even then a byte is
  written behind an allocated buffer if and only if there is an announce URL, whose terminator
  gets no room (`DefinedIff`).
- `strncpy` keeps the piece hashes only if no NUL byte among them is followed by another byte
  (`HashesCopiedIff`).
- `get_piece` takes any unread bytes for its answer: it is right about every file if and only
  if nothing is unread when it begins (`RightIffNoBacklog`; `BacklogIsMistaken` is a concrete
  case).
- The download loop of `bt_client.c` stops after piece 0, so it writes the file if and only if
  the file has at most one piece (`DownloadAsWritten`).
- A torrent file whose path is a component prefix of another path is shown as a directory
  (`FileVisibleIff`). `get_file_index` ignores the first character of its argument, so it
  agrees with `open` only on paths with a leading slash (`OpenIffIndexed`).

## Model

| member | source | states |
|---|---|---|
| `Reference.DecodeHere` | btclient/bencode/tests/bencode/__init__.py:16-62 | wherever the encoding of a value stands, and whatever surrounds it, the decoder returns that value and the position just past it |
| `Reference.DecodeSound` | btclient/bencode/tests/bencode/__init__.py:16-62 | what the decoder consumes is exactly the encoding of what it returns, so superfluous zeros, negative zero and strings cut short are never accepted |
| `Reference.TreeIffEncoding` | btclient/bencode/tests/bencode/__init__.py:64-71 | for all inputs and values: a whole input parses to a value if and only if it is that value's encoding |
| `Reference.PrefixFree` | btclient/bencode/tests/bencode/__init__.py:86-111 | equal encodings with anything behind them come from equal values and equal rests |
| `Canonical.LessIffLexicographic` | btclient/bencode/tests/bencode/__init__.py:106 | the order of the keys is by the first byte that differs, the smaller byte first, a prefix before what it begins |
| `Canonical.SortKeeps` | btclient/bencode/tests/bencode/__init__.py:104-107 | the sorted item list has the same items, strictly ascending in that order when keys are distinct |
| `Canonical.SameIffCanonEqual` | btclient/bencode/tests/bencode/__init__.py:104-111 | two objects are equal as Python objects, at every depth, if and only if their canonical forms are equal |
| `Canonical.EncodingIgnoresInsertionOrder` | btclient/bencode/tests/bencode/__init__.py:104-131 | two Python objects have the same encoding if and only if they are equal, whatever the order their dictionaries were filled in |
| `Canonical.RoundTrip` | btclient/bencode/tests/bencode/__init__.py:64-131 | decoding the encoding of an object succeeds with an object equal to it |
| `Canonical.CanonicalForm` | btclient/bencode/tests/bencode/__init__.py:42-71 | when decoding succeeds, encoding the result gives the input back if and only if every dictionary of the input has strictly ascending keys |
| `Canonical.LastWins` | btclient/bencode/tests/bencode/__init__.py:42-47 | a decoded dictionary has every key of the input exactly with the value of its last occurrence |
| `Canonical.Examples` | btclient/bencode/tests/bencode/__init__.py:86-111 | the examples of the format, spelt out |
| `ReferenceCode.DecodeAny` | btclient/bencode/tests/bencode/__init__.py:49-62 | the dispatch returns the parse tree with repeated keys collapsed, or raises where the decoder does |
| `ReferenceCode.DecodeList` | btclient/bencode/tests/bencode/__init__.py:35-40 | the loop collects exactly the items of the parse tree |
| `ReferenceCode.DecodeDict` | btclient/bencode/tests/bencode/__init__.py:42-47 | the loop leaves what assigning the entries one after the other leaves, for which see LastWins |
| `ReferenceCode.BdecodeRun` | btclient/bencode/tests/bencode/__init__.py:64-71 | bdecode terminates on every byte string with a value or a failure, and data after the value is a failure |
| `ReferenceCode.Pieces.EncodeAny` | btclient/bencode/tests/bencode/__init__.py:86-120 | appends pieces that join to the canonical encoding, and nothing else |
| `ReferenceCode.Pieces.EncodeList` | btclient/bencode/tests/bencode/__init__.py:98-102 | the same for lists |
| `ReferenceCode.Pieces.EncodeEntry` | btclient/bencode/tests/bencode/__init__.py:108-110 | one round of the dictionary loop appends length, colon, key and value |
| `ReferenceCode.Pieces.EncodeDict` | btclient/bencode/tests/bencode/__init__.py:104-111 | sorting the items before encoding them equals encoding the canonical dictionary |
| `ReferenceCode.BencodeRun` | btclient/bencode/tests/bencode/__init__.py:128-131 | the joined pieces are the encoding |
| `CursorProofs.ReadIntIffInRange` | btclient/bencode/bencode.c:38-71 | on a decimal numeral, with any number of leading zeros and a sign or none, `__read_string_int` returns the number and stops at the next byte if and only if its magnitude is at most 2^63-1; beyond it overflows |
| `CursorProofs.ReadLenIffInRange` | btclient/bencode/bencode.c:182-204 | a length prefix is recognised as a string; it is read exactly, leading zeros included, up to 2^31-1, and a longer one overflows the int |
| `CursorProofs.SkipExact` | btclient/bencode/bencode.c:117-180 | started at any item of the loose grammar whose numbers fit, with any bytes behind it, `__iterate_to_next_string_pos` returns the position just past it; no assert fires and no byte outside the item is read |
| `CursorProofs.DictStepExact` | btclient/bencode/bencode.c:234-318 | on a cursor with entries left, has_next says so and get_next yields the next key, a cursor over its value and the cursor over the rest; has_next never stops early |
| `CursorProofs.StepOverIs` | btclient/bencode/bencode.c:287-295 | the item cursor stands at the encoding of the value with a length in 1..len; the end it claims is not short of its true end nor of the parent's claim, and equals the latter if and only if the parent is still at its start; the rest is again a cursor over the remaining entries |
| `CursorProofs.ListStepExact` | btclient/bencode/bencode.c:348-420 | the same for lists, also when the first or a later item is itself a list; on the empty list has_next moves to the closing byte and get_next answers 0 |
| `CursorProofs.DrainDictExact` | btclient/bencode/bencode.c:126-141 | the skip loop over a dictionary ends at its closing byte, except that an unopened empty dictionary is not entered |
| `CursorProofs.DrainListExact` | btclient/bencode/bencode.c:142-153 | the skip loop over a list ends at its closing byte |
| `CursorTheorems.ValidateExact` | btclient/bencode/bencode.c:449-501 | validation of a cursor over a value in range answers 0 |
| `CursorTheorems.WalkExact` | btclient/bencode/bencode.c:73-420 | reading an item recursively through the cursor interface gives exactly the value it means |
| `CursorProtocol.ListProtocol` | btclient/bencode/bencode.c:348-420 | for every sequence of has_next and get_next calls, the k-th successful get_next yields item k, has_next never disturbs it, and past the end both answer 0 for ever; the only fault is a number that overflows in an item stepped over |
| `CursorProtocol.DictProtocol` | btclient/bencode/bencode.c:234-318 | for every sequence of calls: it faults if and only if a get_next steps over a number that overflows or follows the last entry of a dictionary that is not an unopened empty one; otherwise every answer is the expected one |
| `CursorProtocol.FoundAreFirst` | btclient/bencode/bencode.c:259-318 | the successful get_next answers are the first entries in buffer order, each once |
| `CursorTheorems.ChainsStayPlaced` | btclient/bencode/bencode.c:25-32 | through any chain of get_next calls and nested item cursors the carried length stays in 1..len and the claimed end is never short of the true one |
| `CursorTheorems.DictSpan` | btclient/bencode/bencode.c:430-447 | start and length are exactly the dictionary's encoding if and only if it is not empty |
| `CursorRange.SkipFaults` | btclient/bencode/bencode.c:117-180 | on a value with anything out of range, at any depth, the skip overflows |
| `CursorRange.ValidateItemIff` | btclient/bencode/bencode.c:449-510 | on the text of any item, whatever follows it and whether or not the length includes that, bencode_validate answers 0 if the numbers and the length fit, and otherwise overflows; it never rejects one |
| `CursorRange.ValidateIffInRange` | btclient/bencode/bencode.c:449-510 | the same for the encoding of any value: 0 if and only if the value is in range and the length is an int |
| `CursorRange.PropertyTestIff` | btclient/bencode/tests/test.py:34-46 | the sampled property for all objects: bencode_validate answers 0 on what bencode writes if and only if the object is in range and the encoding has at most 2^31-1 bytes |
| `Loose.DecodeRejects` | btclient/bencode/tests/bencode/__init__.py:16-47 | the decoder raises on any item that has a superfluous zero or -0 at any depth, wherever it stands |
| `Loose.TreeIffMinimal` | btclient/bencode/tests/bencode/__init__.py:64-71 | an item with anything behind it decodes, to the value it means, if and only if its numerals are minimal and nothing follows |
| `CursorRange.AcceptedBy` | btclient/bencode/bencode.c:449-510 | on a buffer that begins with a complete item, with anything behind it: bencode_validate answers 0 if and only if numbers and length fit, bdecode succeeds if and only if numerals are minimal and nothing follows |
| `CursorRange.DigitStrings` | btclient/bencode/bencode.c:58-71 | for every digit string t, "i", t, "e" validates if and only if its value fits a long (and the length an int), and decodes if and only if it has no superfluous zero |
| `CursorRange.TrailingData` | btclient/bencode/bencode.c:503-510 | data behind an encoding never changes the answer of bencode_validate, and always makes bdecode fail |
| `CursorCut.ValidateUnclosed` | btclient/bencode/bencode.c:241-254 | on "d" and entries, wherever has_next takes what follows for the end or the length is used up: bencode_validate answers 0 if and only if numbers and length fit, and otherwise faults |
| `CursorCut.DecodeUnclosed` | btclient/bencode/tests/bencode/__init__.py:42-47 | entries followed by neither "e" nor a digit, or by nothing, make the decoder raise |
| `CursorCut.MissingEnd` | btclient/bencode/bencode.c:241-254 | every dictionary without its last byte validates, in a buffer that ends with a NUL, if and only if numbers and length fit, and never decodes |
| `CursorCut.OtherEnd` | btclient/bencode/bencode.c:246-247 | the same with NUL or CR in place of the last byte and anything behind |
| `CursorRange.ReaderRefinesDecoder` | btclient/bencode/bencode.c:234-420 | on every input the reference decoder accepts, the cursor interface shows the same tree, entries in buffer order, each once, if and only if the tree is in range and the length an int; otherwise it faults |
| `CursorReject.SkipRejects` | btclient/bencode/bencode.c:117-180 | at a text that is well-formed up to a broken place at any depth, whatever follows, `__iterate_to_next_string_pos` returns NULL or faults, and exactly which |
| `CursorReject.BrokenIsRejected` | btclient/bencode/bencode.c:449-510 | on such a buffer bencode_validate answers -1, or faults on a failed assert or an overflow at that place or before it; it never answers 0 |
| `CursorReject.StringValueIff` | btclient/bencode/bencode.c:320-346 | for every length prefix and cursor, the string is returned if and only if its last byte lies before the claimed end; without a positive length an assert fails |
| `CursorReject.StringPastEnd` | btclient/bencode/bencode.c:336-342 | a string longer than what is left of the buffer, by even one byte, gives the error return and -1 |
| `CursorReject.ListGetNextRejects` | btclient/bencode/bencode.c:412-417 | at a broken item bencode_list_get_next answers -1 and leaves a null cursor where the skip returns NULL, and faults where it faults |
| `CursorReject.DictGetNextRejects` | btclient/bencode/bencode.c:283-303 | the same for dictionaries and 0; a key without a digit or a colon is a fault |
| `CursorReject.AfterRejection` | btclient/bencode/bencode.c:234-257 | the null cursor that either leaves is over no container, has nothing left as a dictionary and as a list, and only bencode_list_has_next reads through it |
| `CursorReject.NoLengthLeft` | btclient/bencode/bencode.c:25-32 | with no length left to carry, skipping an item fails an assert |
| `CursorReject.NegativeLength` | btclient/bencode/bencode.c:449-510 | with a negative length integers, dictionaries and empty lists validate, and strings and other lists fail an assert |
| `CursorReject.ShortestDictionary` | btclient/bencode/bencode.c:249-251 | an opening byte with a length of 1 is a valid dictionary, with a length of 2 the next byte is read as a key |
| `CursorReject.DictAtTheEnd` | btclient/bencode/bencode.c:126-141 | where the length ends at the opening byte of a dictionary, the skip goes behind that byte, or behind both of an empty one |
| `CursorReject.RunsOffTheEnd` | btclient/bencode/bencode.c:58-65 | digits up to the end of a buffer without terminator are read beyond it |
| `CursorReject.NoSpan` | btclient/bencode/bencode.c:430-447 | on a dictionary with a broken entry the span is computed from a null pointer |
| `CursorCode.ScanDigits` | btclient/bencode/bencode.c:58-65 | the digit loop accumulates as the model does and faults exactly on overflow |
| `CursorCode.Bencode.ReadIsString` | btclient/bencode/bencode.c:94-111 | equals the model on every buffer, without moving the cursor |
| `CursorCode.Bencode.NextInDict` | btclient/bencode/bencode.c:259-318 | answer, key, length, moved cursor and item cursor are the model's, for every buffer, with or without an item |
| `CursorCode.Bencode.MoreInList` | btclient/bencode/bencode.c:348-372 | answer and new cursor are the model's |
| `CursorCode.Bencode.NextInList` | btclient/bencode/bencode.c:374-420 | answer, moved cursor and item cursor are the model's, errors included |
| `CursorCode.Bencode.ToNextStringPos` | btclient/bencode/bencode.c:117-180 | terminates and equals the model on every buffer |
| `CursorCode.Bencode.StartAndLen` | btclient/bencode/bencode.c:430-447 | equals the model and leaves the caller's cursor unmoved |
| `CursorCode.Bencode.RunValidate` | btclient/bencode/bencode.c:449-501 | terminates and equals the model on every buffer |
| `CursorCode.ValidateBuffer` | btclient/bencode/bencode.c:503-510 | equals the model on every buffer |
| `Metainfo.ParseEntryExact` | btclient/bt_lib.c:17-66 | on a cursor over a well-typed value, parse_metainfo records exactly that value under its key, nested dictionaries included |
| `Metainfo.ParseDictExact` | btclient/bt_lib.c:33-42 | the entry loop records the entries in order, each once; a number out of range in any of them, recognised or not, is a fault |
| `Metainfo.BrokenFileFaults` | btclient/bt_lib.c:94-104 | a file that is malformed after any number of well-typed entries is never read without a fault |
| `Metainfo.FieldsRecorded` | btclient/bt_lib.c:33-65 | whatever the order of keys and whatever other keys there are, each length field is the value under its key, cut to 32 bits |
| `Metainfo.LengthsAsRead` | btclient/bt_lib.c:29-65 | for a metainfo in any key order and with any unrecognised keys: exactly when it is read without a fault; then the lengths are the encoded ones modulo 2^32, the piece count the ceiling of their quotient, and the bytes hashed are exactly the encoded info dictionary |
| `Metainfo.SingleFileExtraction` | btclient/bt_lib.c:17-106 | the recorded lengths are the encoded ones if and only if each is at most 2^31-1 (and the file can be read at all); the sizes then satisfy what the download relies on |
| `Metainfo.LongFileIsMisread` | btclient/bt_lib.c:61-65 | a concrete file of 2^31 bytes is read with length -2^31 and piece count -2048 |
| `Metainfo.CeilDivIs` | btclient/bt_lib.c:43-44 | the piece count is the least integer not below the quotient of the lengths, whatever their signs |
| `Metainfo.IllTyped` | btclient/bt_lib.c:19-65 | text under a key whose value is no string fails an assert; a length whose value is a string is read as 0 or fails an assert, and exactly when |
| `Metainfo.KeySpelling` | btclient/bt_lib.c:19-61 | the recognised keys, spelt out |
| `Metainfo.TextExtraction` | btclient/bt_lib.c:19-60 | announce URL, name and piece hashes are the encoded ones, the URL cut and the others blanked from their first NUL on; the terminator of the URL is written behind its buffer |
| `Metainfo.ParsesIff` | btclient/bt_lib.c:43-44 | a metainfo is read without a fault, as far as reads and arithmetic go, if and only if its numbers and size fit, both lengths are present, the piece length is not 0 modulo 2^32 and the quotient is an int |
| `Metainfo.DefinedIff` | btclient/bt_lib.c:19-25 | writes included, reading it stays within defined behaviour if and only if, besides, it has no announce URL |
| `Metainfo.CStrIs` | btclient/bt_lib.c:38-40 | a key is cut before its first NUL, and not earlier |
| `Metainfo.StrNCopyAt` | btclient/bt_lib.c:49-60 | every byte up to the first NUL is copied, and every byte behind it comes out as NUL |
| `Metainfo.HashesCopiedIff` | btclient/bt_lib.c:49-54 | the copied piece hashes are the encoded ones if and only if no NUL is followed by another byte than NUL |
| `MetainfoCode.CopyText` | btclient/bt_lib.c:38-40 | copying stops at the first NUL or after n bytes |
| `MetainfoCode.MetainfoFile.ParseMetainfo` | btclient/bt_lib.c:17-66 | terminates, and the fields it leaves are the model's, on every buffer |
| `MetainfoCode.MetainfoFile.ParseEntries` | btclient/bt_lib.c:94-104 | the same for the loop at either level |
| `MetainfoCode.ParseMetainfoFile` | btclient/bt_lib.c:86-105 | the same for the bytes of a file |
| `Download.PieceSizes` | btclient/bt_lib.c:9-15 | every piece has 1..pieceLength bytes and begins at a multiple of pieceLength below the file length; the sizes add up to the file length |
| `Download.PiecesMakeFile` | btclient/bt_lib.c:9-15 | the pieces in order are the file |
| `Download.NoSuchPiece` | btclient/bt_lib.c:9-11 | a piece from num_pieces on has size -1 and nothing of it is written |
| `Download.RequestBytes` | btclient/bt_lib.c:343-351 | the 17 bytes of a request: 0, 0, 0, 13, 6, and index, begin and length, most significant byte first |
| `Download.RequestRoundTrip` | btclient/bt_lib.c:343-351 | the bytes of a request are read back by the peer as the same index, begin and length |
| `Download.RequestIs` | btclient/bt_lib.c:335-362 | request i begins 16384 * i bytes on and is for 16384 bytes, or for what is left if it is the last |
| `Download.RequestsTile` | btclient/bt_lib.c:340-362 | the requests of a piece are contiguous and disjoint, at most 16384 bytes long, and cover it exactly |
| `Download.Connection.GetBlock` | btclient/bt_lib.c:315-328 | for every fragmentation into non-empty reads, the next size bytes of the stream and no more |
| `Download.Connection.FetchBlock` | btclient/bt_lib.c:341-360 | one round sends one request and places exactly what follows the 13 header bytes |
| `Download.Connection.GetPiece` | btclient/bt_lib.c:330-365 | for any peer and any unread bytes: the messages sent, the bytes placed and the bytes left over are those of the whole list of requests |
| `Download.Bep3PeerIsHonest` | btclient/bt_lib.c:343-358 | a peer that follows BEP 3 and has the file answers every request in range with a header of 13 bytes and the block |
| `Download.HonestPiece` | btclient/bt_lib.c:330-365 | the answers of a peer that has the file assemble to exactly the piece, with nothing left unread |
| `Download.DownloadFile` | btclient/bt_lib.c:330-365 | get_piece called for every piece in turn on such a peer yields the file, for every fragmentation |
| `Download.DownloadAsWritten` | btclient/bt_client.c:52-55 | the loop as it stands, which fetches piece 0 only: what it writes is the file if and only if there is at most one piece |
| `Download.RightIffNoBacklog` | btclient/bt_lib.c:353-358 | for every torrent, piece and unread bytes: get_piece assembles the right piece of every file if and only if nothing is unread when it begins |
| `Paths.SplitRebuilds` | FS.cpp:358-368 | splitting a path on "/" and concatenating the components rebuilds it |
| `Paths.DirPathInjective` | FS.cpp:362-368 | different component lists have different index keys |
| `FileSystem.FS.FillDirectoryMap` | FS.cpp:352-370 | afterwards the directories are exactly the proper component prefixes of the file paths, the file names exactly the file paths, and the listings exactly each directory's next components |
| `FileSystem.FS.FillFile` | FS.cpp:357-369 | what one round inserts into each of the three containers, and that nothing is removed |
| `FileSystem.FS.GetFileIndex` | FS.cpp:94-105 | the first file with the path behind the leading character, or -1 |
| `FileSystem.FS.GetAttributes` | FS.cpp:61-80 | equals the model; the size of file -1 is never asked for |
| `FileSystem.FS.ReadDirectory` | FS.cpp:255-273 | the names of a known directory, never none, and -ENOENT for anything else |
| `FileSystem.FileKeyIsIndexed` | FS.cpp:71-74 | a path that getattr finds among the files has an index |
| `FileSystem.OpenIffIndexed` | FS.cpp:82-105 | open succeeds if and only if the path begins with "/" and get_file_index finds it |
| `FileSystem.GetAttrIff` | FS.cpp:61-80 | for every path: a directory if and only if it is one, no entry if and only if it is neither a directory nor a file, and otherwise a file with the size of the first file of that path |
| `FileSystem.ReadDirIff` | FS.cpp:255-273 | for every path and name: readdir lists exactly the names inserted for that directory |
| `FileSystem.FileVisibleIff` | FS.cpp:61-80 | a torrent file is shown as a regular file, with the size of the first file of that path, unless its path is empty or a component prefix of another; then, and only then, as a directory |
| `FileSystem.ListedNamesResolve` | FS.cpp:255-273 | every name readdir lists resolves through getattr, and, unless it is the empty name in the root, to the entry it was listed for |
| `FileSystem.ListedIsKnown` | FS.cpp:362-369 | names have no slash, are listed only in known directories, and name a known directory or file |
| `FileSystem.OneParent` | FS.cpp:362-369 | every known directory or file but the root is listed, by exactly one parent and under exactly one name |
| `FileSystem.DescendReachesIff` | FS.cpp:358-369 | following the components of a path from "/" leads to it if and only if it has no leading slash |
| `FileSystem.FilesReachable` | FS.cpp:255-273 | every torrent file is reached from "/" by listed names |
| `ReadProtocol.InitPriorities` | FS.cpp:373-376 | priority 0 exactly for the pieces from 10 on |
| `ReadProofs.InitialInv` | FS.cpp:275-402 | the state init_bitfs leaves satisfies the invariant |
| `ReadProofs.FillIs` | FS.cpp:114-130 | popping the queue leaves in the map exactly the old pieces and the queued ones, with their true bytes |
| `ReadProofs.PollKeeps` | FS.cpp:114-130 | whoever polls, no piece asked for is lost to the others |
| `ReadProofs.PassAdvances` | FS.cpp:178-205 | one round of the priority pass keeps every piece passed so far held or with a priority other than 0 |
| `ReadProofs.RoundBytes` | FS.cpp:238-247 | the bytes one round copies are the next bytes of the file, also when the file begins within a piece and the last piece is short |
| `ReadProofs.MutexMoves` | FS.cpp:207-250 | the mutex changes hands only at lock and unlock and other calls are untouched |
| `ReadProofs.StepKeeps` | FS.cpp:114-253 | every step of every call and of the session keeps the invariant |
| `ReadProofs.RunKeeps` | FS.cpp:114-253 | so does every run |
| `ReadTheorems.FinishedReadsAreSlices` | FS.cpp:148-253 | under any interleaving of calls, completed pieces and posted alerts, a finished read has returned exactly the bytes of the file from offset to min(offset + count, file size) |
| `ReadTheorems.FinishedReadsReturn` | FS.cpp:148-253 | in numbers: a finished read has returned min(count, file size - offset) bytes, none at or behind the end of the file, and the i-th is byte offset + i of the file |
| `ReadTheorems.NothingIsLost` | FS.cpp:114-146 | at most one call is between lock and unlock; pieces are read only once held; whatever was asked for is in the map, in the queue or still owed |
| `ReadTheorems.PiecesAreConsecutive` | FS.cpp:182-248 | both loops visit the same pieces: the consecutive run the requested bytes lie in |
| `ReadTheorems.MissingPieceRound` | FS.cpp:182-204 | one round of the priority pass over a missing piece: that piece gets 7, the one before it 1 unless it is piece 0, the one behind it 7 if there is one, no other priority changes, and the piece is noted |
| `ReadTheorems.HeldPieceRound` | FS.cpp:182-204 | over a piece that is held nothing but the position changes |
| `ReadTheorems.HeldPiecesAreAskedFor` | FS.cpp:207-217 | under the mutex each noted piece that is held is asked for once, and no other |
| `ReadTheorems.AskedOnlyWhenMissing` | FS.cpp:223-235 | apart from that the session is asked exactly for a held piece whose bytes are not in the map |
| `ReadTheorems.OneAlertPerRequest` | FS.cpp:114-146 | in every run, for every piece: the requests are as many as the alerts posted and those still owed |
| `ReadTheorems.StartIsInitial` | FS.cpp:373-402 | no request and no call, and priority 0 exactly from piece 10 on, is a state the theorems start from |
| `ReadTheorems.NeededPiecesStayWanted` | FS.cpp:178-205 | from the end of its priority pass until it is done copying, each piece a call needs is held or has a priority other than 0, although passes lower priorities |
| `ReadTheorems.ReadersAreNeverStuck` | FS.cpp:148-253 | an unfinished call can move if and only if it is not waiting for a mutex that is held |
| `ReadTheorems.NextStepIsFair` | FS.cpp:132-236 | the holder of the mutex only ever waits for a piece that has a priority or an alert that is owed |
| `ReadTheorems.OthersNeverSetBack` | FS.cpp:114-253 | in every state the invariant allows, no step of another call or of the session takes a call further from its end |
| `ReadTheorems.NoStepSetsBack` | FS.cpp:114-253 | no step whatsoever, its own polling included, takes any call further from its end, and every step that helps some call makes the total distance smaller |
| `ReadTheorems.EnoughHelpFinishes` | FS.cpp:114-253 | in any run, whatever is interleaved, a call is helped at most 36 * (bytes to read + 1) times, and once it has been helped so often it has returned its slice |
| `ReadTheorems.EnoughHelpFinishesAll` | FS.cpp:114-253 | in any run at most as many steps help some call as the calls are together away from their ends, and once so many have been taken all have returned their slices |
| `ReadTheorems.HelpIsAtHand` | FS.cpp:132-253 | while a call is unfinished, the session and the calls can take a step that helps one of them, the session completing only wanted pieces |
| `ReadTheorems.CallCanFinish` | FS.cpp:132-253 | the holder, or any call while the mutex is free, can be brought to its end by its own steps and the session's alone |
| `ReadTheorems.AllCallsCanFinish` | FS.cpp:148-253 | every call can be brought to its end |
| `ReadTheorems.EveryRunCanBeCompleted` | FS.cpp:148-253 | every run can be continued until every call has returned its slice: there is no deadlock |

## Left out

- ReadProtocol.MoveReader: `FS::read` is modelled on values, one step at a time, because calls interleave and its waiting loops end only when the session acts; the C buffers, log lines and the `int` conversions of size and offset (assumed to fit) are not part of it, nor is `required_count`, which is incremented without having been initialised and never read (FS.cpp:181,189). A `have_piece` followed by `read_piece` in the loop over required pieces is one step, and so is popping the alerts and copying them into the map; nothing another call can see lies between.
- ReadTheorems.EnoughHelpFinishes: bounds the steps that bring a call forward, in any run; that a scheduler and the session do take such steps is an assumption about them that is not modelled.
- Metainfo.TextExtraction: says what is copied into the announce, name and hash buffers and that the URL overruns its own; what lies behind that buffer, and later reads of texts without a terminator, are not part of this model.
- Metainfo.LengthsAsRead: SHA1 is left out; the bytes handed to it are kept instead.
- Reference.TreeIffEncoding: Python's `int()` also accepts spaces, signs and other forms; lengths are modelled as digits only, integers as an optional minus and digits.
- Download.DownloadAsWritten: `write` is taken to write all it is given, and nothing when the size is -1; the file descriptor and the trace output of `get_piece` are not part of this model.
- Download.Connection.GetBlock: a read that returns 0 or fails is not modelled; the peer sends enough bytes.
- libtorrent, FUSE and Boost: only their contracts. `have_piece` never goes back to false, a `read_piece` of a held piece leads to one alert with its true bytes, no alert is dropped, paths are split on "/".
- Reading the metainfo file from disk, `stat`, sockets, the handshake, choke, unchoke and interested messages, `peerlisten`, the peer list and `main`.
- `bitFS.cpp`, an older copy of `FS.cpp` that is not built; the getters and setters of `bitfs_metadata` and `torrent_metadata`; `stat_to_string` and `get_peer_info_message`.
- `encode_bool`, tuples and `Bencached`, which do not round-trip by design.
- Conversions of a `long` to an `int` (lengths, carried lengths, spans) keep the value modulo 2^32, as compilers for two's complement machines do.
- Floating point in the piece count: the integer ceiling, which `double` gives exactly for 32-bit operands.
