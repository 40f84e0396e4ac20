# Protocol, archive and life-cycle models

This project models five parts of TheSS (The Service Spawner) in Dafny and proves what they are for.

**Redis replies and commands** (`ReplyMachine`, `ReplyTree`, `ReplyRoundTrip`, `ReplyReader`, `DynamicStrings`,
`Commands`, `CommandFormats`, `Quoting`, `ArgumentLines`, `ReplyExamples`). `ReplyMachine` says what the resumable
reply parser of hiredis means, as a function of the bytes not yet consumed and the arrays still open. `ReplyReader` is
the parser as it is written: a buffer with a cursor, a stack of nine tasks, a reply tree that is filled in place, all
updated step by step, and proved to refine the machine. `Commands` is the formatter that computes an exact length
first, and `Quoting` the pair of functions that quote and split argument lines. `CommandFormats` and `ArgumentLines`
say what formats and lines mean, piece by piece, and `ReplyExamples` states the protocol in plain bytes. A number
given to a printf directive is modelled by the text that `vsnprintf` makes of it.

**ZIP archives** (`ZipNumbers` to `ZipRoundTrip`, `ZipStandard`, `ZipExamples`, `Unzip`, `Crypt`, `CryptExamples`,
`Bits`, `DataBlocks`). The format follows PKWARE APPNOTE.TXT, sections 4.3.7, 4.3.9, 4.3.12, 4.3.16 and 6.1, for
stored entries. `ZipLayout` gives the bytes of an archive as a function of its entries, and `ZipStandard` says which
number stands where in them. The writer and the reader are classes over a seekable file, with the buffers, counters
and key arrays of the C code; the writer is proved to produce those bytes, the reader to find the entries in them.
What a handle carries from one entry to the next, the mark for encryption and the keys, is part of what reading means
(`KeysAt`, `Given`). The checksum table is a parameter, and so are the random bytes of the encryption header.

**The asynchronous engine and its hash table** (`Dicts`, `DictIterators`, `CallbackQueues`, `AsyncTrace`, `Async`,
`AsyncArguments`, `PublishSubscribe`, `AsyncExamples`). User callbacks are arbitrary: the n-th callback to run makes
the API calls that a function of n gives. The replies the reader has, and what the socket does, are the inputs of a
run. A failed assertion of the C program is an outcome (`Failure`), not something assumed away. `AsyncTrace` says what
a run records, and what the events, the calls and the scripts make that record be; `Async` keeps it so.
`PublishSubscribe` is the law of subscriptions, by the words on the wire. In `Async` the two subscription tables are
maps, which is what `Dicts` proves the hash table to be.

**The service life-cycle** (`Services`). Marker files are sets, dependencies are recursive calls on fresh objects,
what hooks and the disk do is a function of how often they were asked. Hooks may touch any marker but the running one
and that of a stop in progress. A log records what happens; the start discipline is a property of every entry of it,
and an entry for a start that was refused has its cause: no room, or the failure marker directly after the validation.
A service is sound if no hook makes its validation fail, and doomed if every hook does.

**Log rotation** (`Rotation`). A directory is a map from names to contents.

Where code and its own comments differ the model follows the code:

* A reader or writer of archives does not find an end record at offset 0, so an empty archive at the start of a file
  is not an archive (src/quazip/unzip.c:341, 433).
* The year 1980 is taken for a two-digit year when a date is stored (src/quazip/zip.c:329-332).
* The mark that entries of a handle are encrypted is never cleared (src/quazip/unzip.c:1190): a plain entry read after
  an encrypted one on the same handle is decrypted with the keys left over. `GivesContentIff` says when it comes back
  unchanged all the same, `GarbledExample` is an archive for which it does not.
* The size counted for rotation leaves out newlines, and after a rotation the message that caused it
  (src/qslog/QsLogDestFile.cpp:51-54, 134-149).
* `sdssplitargs` does not decode the hexadecimal escapes that `sdscatrepr` writes, although the comment at
  src/hiredis/sds.c:416-417 says that it parses what the other quotes.
* A pending disconnect of an asynchronous context is carried out when all is sent, although replies may be missing
  (src/hiredis/async.c:396); the assertion at src/hiredis/async.c:314 then fails. `NoMoreReplies` says exactly when,
  and `PendingExample` is such a run.
* While monitoring, a read without a whole reply queues a callback that was never set (src/hiredis/async.c:402-404):
  `MonitorExample`.
* A message for a channel that nobody subscribed to runs the callback of the reply before it, if one was read in the
  same turn (src/hiredis/async.c:362-364): `MessageLost`.
* A search for a name that fails restores the position in the archive, but not the mark that it is usable
  (src/quazip/unzip.c:879-886). `LocateFile` says when it is lost, `LoseCurrent` gives archives for which it is.
* The size of a hash table is compared as an `int` (src/hiredis/dict.c:272-273): a walk over a table of 2^31 chains
  ends at once (`VisitAll`, `FirstAtLimit`).
* A start that is refused after its dependencies were launched leaves them running, and stopping the service then does
  nothing (src/service_spawner/service.cc:732-738, 883-886): `StartThenStop` says when that matters, `LeftBehind` is
  an example.

## Model

| member | source | states |
|---|---|---|
| ReplyMachine.ChunkingIndependence | src/hiredis/hiredis.c:585-665 | from any reader state, any bytes fed in any pieces with all replies drained after each piece give the replies and the final state (pending, idle or failed) of feeding them at once |
| ReplyMachine.TwoChunkings | src/hiredis/hiredis.c:585-665 | two ways of cutting the same bytes into feeds cannot be told apart |
| ReplyMachine.NextExtends | src/hiredis/hiredis.c:617-665 | bytes that arrive later never change a reply already complete, and a stopped parse resumes as if it had all the bytes from the start |
| ReplyMachine.NewlineExtends | src/hiredis/hiredis.c:260-284 | the first CR LF pair stays the first one when bytes are appended |
| ReplyReader.SeekNewline | src/hiredis/hiredis.c:260-284 | finds the first CR LF pair or says there is none, for every buffer with a terminator behind its last byte, which the loop looks at |
| ReplyReader.ReadLongLong | src/hiredis/hiredis.c:288-313 | the digit loop computes the number, or -1 at a byte that is no digit, in 64-bit arithmetic |
| ReplyReader.LineReply | src/hiredis/hiredis.c:355-387 | the object made of a status, error or integer line |
| ReplyReader.Reader.constructor | src/hiredis/hiredis.c:556-575 | a new reader is in the start state |
| ReplyReader.Reader.SetError | src/hiredis/hiredis.c:186-210 | an error discards reply, buffer and task stack, and is final |
| ReplyReader.Reader.Feed | src/hiredis/hiredis.c:585-615 | feeding appends to what is unread, also when an idle buffer with too much room is swapped for a new one; after an error it changes nothing and reports failure |
| ReplyReader.Reader.ReadLine | src/hiredis/hiredis.c:315-328 | a line is consumed with its CR LF exactly if one is complete |
| ReplyReader.Reader.Place | src/hiredis/hiredis.c:97-184 | a finished object lands in the slot its task names, and nothing else in the reply tree changes |
| ReplyReader.Reader.OpenArrayIsANode | src/hiredis/hiredis.c:330-353 | stack invariant: every task below the top is an array with a child index in range, its node in the partly built reply has exactly the slots before that index filled |
| ReplyReader.Reader.MoveToNextTask | src/hiredis/hiredis.c:330-353 | after an item the stack moves to the next slot, closing all arrays that are thereby full, or to the root being complete |
| ReplyReader.Reader.ProcessLineItem | src/hiredis/hiredis.c:355-387 | one step of the abstract reader on a line |
| ReplyReader.Reader.ProcessBulkItem | src/hiredis/hiredis.c:389-440 | one step on a bulk string, nil included |
| ReplyReader.Reader.ProcessMultiBulkItem | src/hiredis/hiredis.c:442-505 | one step on an array header: nil, empty and negative counts, and a header that is too deep |
| ReplyReader.Reader.ProcessItem | src/hiredis/hiredis.c:507-554 | refines one step of the abstract reader: every success consumes bytes within the buffer |
| ReplyReader.Reader.ProcessItems | src/hiredis/hiredis.c:641-644 | the loop ends, with a whole reply, an error, or waiting for bytes |
| ReplyReader.Reader.Discard | src/hiredis/hiredis.c:650-656 | dropping the consumed bytes loses nothing unread |
| ReplyReader.Reader.GetReply | src/hiredis/hiredis.c:617-665 | refines the abstract reader: the next reply if there is one, else none, with the state to resume from |
| ReplyReader.Pump | src/hiredis/hiredis.c:585-665 | the real reader, fed in pieces and drained after each, gives what the abstract session gives |
| ReplyMachine.Step | src/hiredis/hiredis.c:507-554 | every item processed successfully consumes at least one byte and no more than there are, so processing ends; a complete reply leaves no open array |
| ReplyTree.PutFills | src/hiredis/hiredis.c:97-184 | writing an object through the parent links fills the next open slot of the innermost array |
| ReplyTree.NodeOfFrame | src/hiredis/hiredis.c:330-353 | the node a task points to is the array of that task |
| ReplyRoundTrip.RoundTrip | src/hiredis/hiredis.c:330-554 | reading the encoding of any reply of at most eight array levels gives that reply and consumes exactly its bytes, whatever follows |
| ReplyRoundTrip.PipelineInChunks | src/hiredis/hiredis.c:585-665 | a pipeline of encoded replies, cut anywhere, is read back as that list |
| ReplyRoundTrip.StatusRoundTripIff | src/hiredis/hiredis.c:355-387 | a status line round-trips exactly if it has no CR LF pair |
| ReplyRoundTrip.NinthLevelRefused | src/hiredis/hiredis.c:442-454 | an array header below eight open arrays is an error, whatever the eight hold so far |
| ReplyRoundTrip.LongLongOfDecimal | src/hiredis/hiredis.c:288-313 | every 64-bit number is read back from its decimal form, the least one included |
| ReplyExamples.Lines | src/hiredis/hiredis.c:355-387 | "+", "-" or ":", a line and CR LF are a status, an error or a number of 64 bits, byte by byte on the wire |
| ReplyExamples.Bulks | src/hiredis/hiredis.c:389-440 | "$", a length, CR LF, that many bytes of any kind and CR LF are a bulk string; "$-1" and "*-1" are nil |
| ReplyExamples.Arrays | src/hiredis/hiredis.c:442-505 | "*", a count and the encoded elements are the array of them, in their order |
| ReplyExamples.OtherBytesRefused | src/hiredis/hiredis.c:512-532 | every byte other than "+", "-", ":", "$" and "*" where an item should start is a protocol error that names it |
| ReplyExamples.EightLevelsRead | src/hiredis/hiredis.c:442-505 | a reply inside up to eight arrays of one element is read back |
| ReplyExamples.NineLevelsRefused | src/hiredis/hiredis.c:447-454 | nine array headers, one inside the other, make the reader fail, whatever follows |
| ReplyExamples.NumberLines | src/hiredis/hiredis.c:288-313 | numbers with and without a sign, and that a line that is no number counts as -1 |
| ReplyExamples.OddCounts | src/hiredis/hiredis.c:456-500 | the array counts at the edges: -1, 0, negative ones, 2^31 - 1 and 2^31 |
| DynamicStrings.Sds.MakeRoomFor | src/hiredis/sds.c:88-106 | room grows to twice what is needed, only if needed, and keeps the contents |
| DynamicStrings.Sds.CatLen | src/hiredis/sds.c:127-139 | appends |
| DynamicStrings.Sds.Range | src/hiredis/sds.c:219-248 | keeps exactly the bytes from start to end, negative indices counted from the end, empty if out of range |
| DynamicStrings.RangeToEnd | src/hiredis/sds.c:219-248 | the range from a position, counted from the front or the back, to -1 is the rest of the string |
| DynamicStrings.RangeExamples | src/hiredis/sds.c:556-583 | the ranges of the repository's own tests |
| Quoting.CatRepr | src/hiredis/sds.c:379-405 | appends the quoted form |
| Quoting.ReadToken | src/hiredis/sds.c:428-482 | the scanning loop reads one token as the grammar of tokens says, or finds the line malformed |
| Quoting.SplitArgs | src/hiredis/sds.c:419-502 | splits a line as the grammar of tokens says; `ArgumentLines` says what that grammar means |
| Quoting.SplitOfJoin | src/hiredis/sds.c:379-502 | quoting any strings, joining with spaces and splitting gives them back with each byte that is neither printable nor one of the five named escapes turned into its three-character hexadecimal text |
| Quoting.QuoteSplitInverseIff | src/hiredis/sds.c:379-502 | splitting inverts quoting exactly for lists of strings of printable bytes and newline, return, tab, bell and backspace |
| ArgumentLines.SplitOfLine | src/hiredis/sds.c:407-502 | a line of arguments, each bare text, quoted text or bare text that quoted text ends, with any blanks between them, is split into exactly their values |
| ArgumentLines.UnclosedQuoteRefused | src/hiredis/sds.c:457-459 | a line whose last quote is not closed fails, whatever precedes it |
| ArgumentLines.TextBehindQuoteRefused | src/hiredis/sds.c:453-456 | a line in which a closing quote is followed by anything but a blank fails, whatever else is in it |
| ArgumentLines.EscapesRead | src/hiredis/sds.c:440-452 | the five named escapes give their bytes, a backslash before any other byte gives that byte |
| ArgumentLines.EscapesWritten | src/hiredis/sds.c:379-405 | which bytes quoting writes as what: the named escapes, two hexadecimal digits, or as they are |
| Commands.IntLen | src/hiredis/hiredis.c:668-679 | the number of characters of a decimal number |
| Commands.BulkLen | src/hiredis/hiredis.c:682-684 | the exact length of a bulk string on the wire |
| Commands.FormatCommandArgv | src/hiredis/hiredis.c:939-971 | the precomputed length is the number of bytes written, which are the array of bulk strings, terminated |
| Commands.CommandRoundTrip | src/hiredis/hiredis.c:939-971 | feeding a formatted command to the reader gives the array of exactly its arguments, binary bytes included |
| Commands.WireInjective | src/hiredis/hiredis.c:939-971 | different argument lists never give the same bytes |
| Commands.CollectArguments | src/hiredis/hiredis.c:700-872 | the loop over the format collects the arguments of the format, for every format with its arguments; what these are is stated by `InterpolationIsExact` |
| Commands.ReadDirective | src/hiredis/hiredis.c:751-832 | the scan over flags, width, precision and size finds the kind of number a printf directive takes and where it ends, or that it is unknown or runs into the end of the format |
| Commands.FormatCommand | src/hiredis/hiredis.c:686-911 | its output is that of formatting the arguments of the format as an argument vector; -1 exactly if the format is refused |
| CommandFormats.InterpolationIsExact | src/hiredis/hiredis.c:700-872 | a format that writes any words one after another, with any spaces around and at least one between them, gives exactly the words; each is its literal bytes, "%%" and the texts of its strings, bytes and numbers in order, and a printf directive of 14 bytes or more prints nothing and counts as text from its third byte on |
| CommandFormats.ReadsDirective | src/hiredis/hiredis.c:751-832 | every printf directive built of its five optional flags, width, precision, size and conversion is read to its end, and takes the kind of number its size and conversion say |
| CommandFormats.UnknownDirectiveRefused | src/hiredis/hiredis.c:830-833 | a percent sign before a byte that starts no directive makes the whole format fail, wherever it stands |
| CommandFormats.LastPercent | src/hiredis/hiredis.c:706-706 | a percent sign at the very end is text |
| CommandFormats.WireExample | src/hiredis/hiredis.c:939-971 | "SET", "k" and an empty string on the wire, byte by byte |
| Crypt.UpdateKeys | src/quazip/crypt.h:51-61 | one key update on the array, in 64-bit arithmetic |
| Crypt.SetKeys | src/quazip/crypt.h:68-77 | the keys after the password |
| Crypt.EncodeBuffer | src/quazip/zip.c:970-990 | encrypting a buffer in place |
| Crypt.DecodeBuffer | src/quazip/unzip.c:1292-1301 | decrypting a buffer in place |
| Crypt.CryptHead | src/quazip/crypt.h:93-129 | the encryption header, and the keys it leaves |
| Crypt.EncryptAppend | src/quazip/zip.c:970-990 | where the flushes cut the content does not change the cipher text |
| Crypt.DecryptAppend | src/quazip/unzip.c:1292-1301 | where the fetches cut the cipher text does not change the plain text |
| Crypt.ReaderInverts | src/quazip/crypt.h:37-129 | for every password, header and content, the reader has the writer's keys after the header and recovers every byte, with anything behind |
| Crypt.CrcAppend | src/quazip/zip.c:1009-1009 | the checksum taken piece by piece is that of the whole |
| CryptExamples.OperatorBits | src/quazip/crypt.h:31-44 | every bit of exclusive or, or, and is that of the truth table |
| CryptExamples.CrcOfOne | src/quazip/crypt.h:31-31 | the checksum of one byte, for every byte and table, as the table word for its complement with the high eight bits turned |
| CryptExamples.FirstKeys | src/quazip/crypt.h:68-72 | the three keys before the password, and the first byte of their key stream, as numbers |
| CryptExamples.PasswordKeys | src/quazip/crypt.h:73-76 | every byte of the password updates the keys, in order |
| CryptExamples.KeysFromZero | src/quazip/crypt.h:51-61 | one update as numbers, the wrap-around at 64 bits included |
| CryptExamples.HeadHolds | src/quazip/crypt.h:119-126 | decrypted, the encryption header holds the random bytes encrypted once and two bytes of the checksum argument |
| Bits.XorBound | src/quazip/crypt.h:79-83 | the exclusive or of two numbers of n bits has n bits: what encryption makes of a byte is a byte |
| Bits.XorInvolution | src/quazip/crypt.h:79-83 | exclusive or with the same number twice changes nothing |
| Bits.AndMask | src/hiredis/dict.c:118-118 | masking with a power of two less one is the remainder |
| ZipNumbers.PutValue | src/quazip/zip.c:272-297 | writes the little-endian number, or all ones if it does not fit |
| ZipNumbers.PutValueInMemory | src/quazip/zip.c:300-319 | the same in a buffer, leaving the rest of it |
| ZipNumbers.PutReadsBackIff | src/quazip/zip.c:272-297 | a number reads back exactly if it fits its width |
| ZipNumbers.GetByte | src/quazip/unzip.c:173-191 | a byte, or none at the end |
| ZipNumbers.GetShort | src/quazip/unzip.c:203-224 | a two-byte number; 0 if the file ends first |
| ZipNumbers.GetLong | src/quazip/unzip.c:231-259 | a four-byte number; 0 if the file ends first |
| ZipNumbers.FieldAt | src/quazip/unzip.c:231-259 | the k-th number of a record is found at the sum of the widths before it |
| ZipNumbers.FieldPatch | src/quazip/zip.c:1128-1144 | overwriting one number of a record changes that number and no other byte |
| ZipLayout.DateRoundTripIff | src/quazip/zip.c:324-336 | a broken-down date survives storing exactly in 1981..2107 with an even second |
| ZipStandard.DateExample | src/quazip/zip.c:324-336 | one date stored and read, as numbers; a DOS date that is given is kept |
| DataBlocks.BlockList.Add | src/quazip/zip.c:206-258 | appends, over as many blocks as it takes |
| DataBlocks.BlockList.WriteAll | src/quazip/zip.c:1204-1218 | writes what the blocks hold, in order, and counts it |
| ZipHeaders.BuildCentralHeader | src/quazip/zip.c:797-838 | the central header of an entry being written, numbers at their offsets |
| ZipHeaders.PatchCentralHeader | src/quazip/zip.c:1113-1119 | checksum and sizes land in their places of the central header |
| ZipHeaders.WriteLocalHeader | src/quazip/zip.c:842-876 | the local header, with checksum and sizes still zero |
| ZipHeaders.PatchLocalHeader | src/quazip/zip.c:1128-1144 | seeking back changes the three numbers of the local header and nothing else in the file |
| ZipHeaders.WriteDescriptor | src/quazip/zip.c:1146-1159 | what stands behind the stored bytes is the data descriptor if the flag asks for one, else nothing; `DescriptorStandard` says what it holds |
| ZipHeaders.WriteEndRecord | src/quazip/zip.c:1221-1250 | the end record with its comment |
| ZipEntryWriter.CurFile.Begin | src/quazip/zip.c:747-922 | a new entry starts with its local header and, with a password, its encryption header |
| ZipEntryWriter.CurFile.Flush | src/quazip/zip.c:970-990 | flushing moves the buffered bytes to the file, encrypted if need be |
| ZipEntryWriter.CurFile.Write | src/quazip/zip.c:992-1055 | any number of bytes is appended to the entry, through a buffer of 16384 bytes |
| ZipEntryWriter.CurFile.Finish | src/quazip/zip.c:1057-1168 | the file holds the complete record of the entry, whatever the writes and flushes were |
| ZipWriter.Writer.Create | src/quazip/zip.c:505-548 | a new writer on an empty file |
| ZipWriter.Writer.OpenNewFile | src/quazip/zip.c:698-922 | opening an entry adds it, after closing one still open |
| ZipWriter.Writer.Write | src/quazip/zip.c:992-1055 | writing extends the open entry, and is refused without one |
| ZipWriter.Writer.CloseFile | src/quazip/zip.c:1057-1174 | closing enters the entry in the directory, its offset counted from the start of the archive |
| ZipWriter.Writer.Close | src/quazip/zip.c:1176-1262 | the file then is what it was opened with, extended by the entries, with the comment, the old one if none is given |
| ZipWriter.LoadDirectory | src/quazip/zip.c:638-660 | the old directory is collected in blocks, whatever its size |
| ZipWriter.OpenForAppend | src/quazip/zip.c:549-690 | reopening any file takes over what precedes the directory, the directory, the count and the comment of the end record at the last signature; it fails exactly if there is none that parses |
| ZipLayout.ExtendedIsArchive | src/quazip/zip.c:549-1262 | extending the archive of some entries by more gives the archive of all of them |
| ZipWriter.BaseOfArchive | src/quazip/zip.c:549-690 | what reopening takes over from an archive that zip.c wrote |
| ZipSearch.ScanWindow | src/quazip/unzip.c:372-381 | the last signature inside one window, or none |
| ZipSearch.SearchCentralDir | src/quazip/unzip.c:333-388 | the greatest offset in the last 0xffff bytes at which the end signature stands, or 0: no occurrence on a window boundary is missed |
| ZipSearch.LastSigUnique | src/quazip/unzip.c:333-388 | that offset is determined by the bytes |
| ZipParse.ReadEnd | src/quazip/unzip.c:432-489 | the end record is read and checked; one at offset 0 counts as not found |
| ZipParse.SearchFindsEnd | src/quazip/unzip.c:340-340 | in a written archive the search finds the end record exactly if 22 bytes and the comment fit into 0xffff and no signature comes later; without a later one it finds that or nothing |
| ZipParse.ArchiveOpens | src/quazip/unzip.c:432-489 | opening a written archive finds where everything is, unless nothing precedes the end record |
| ZipParse.EntryCentral | src/quazip/unzip.c:579-740 | every written central header reads back field by field, with its name, extra field and comment |
| ZipParse.EntryLocal | src/quazip/unzip.c:962-1047 | every local header stands at the recorded offset, agrees with the central one and is followed by the stored bytes, with at least twelve bytes behind |
| ZipStandard.EntryStands | src/quazip/zip.c:797-1174 | number by number, with the signatures and versions as numbers: both headers of the i-th entry; behind its stored bytes, if bit 3 of the local flags is set, 0x08074b50 and then the checksum, the compressed and the uncompressed size that parsing the central header gives; and then, or at once if the bit is clear, the next record or the directory |
| ZipStandard.DescriptorStandard | src/quazip/zip.c:1146-1159 | the four numbers of a data descriptor, which stands exactly where a level and the descriptor option ask for it |
| ZipStandard.FlagIs | src/quazip/zip.c:777-792 | the bits of the flags: encryption, level, data descriptor |
| ZipStandard.EndStands | src/quazip/zip.c:1221-1250 | number by number, the end record, and that the directory is where it says |
| ZipStandard.EncryptionHead | src/quazip/zip.c:902-922 | who knows the password finds the low half of the date in the encryption header of every encrypted entry |
| ZipStandard.EndAccepted | src/quazip/unzip.c:432-489 | an end record is accepted exactly if it is complete, not at offset 0, speaks of one disk and lies behind the directory |
| ZipStandard.CentralAccepted | src/quazip/unzip.c:600-664 | a central header is accepted exactly if it is complete and has its signature |
| ZipStandard.LocalAccepted | src/quazip/unzip.c:962-1047 | a local header is accepted exactly if signature, method and name length agree with the central one and, without a data descriptor, checksum and sizes |
| Unzip.ReadCentralNumbers | src/quazip/unzip.c:605-664 | reading a central header field by field |
| Unzip.CheckLocalHeader | src/quazip/unzip.c:962-1047 | the local header agrees with the central one, checksum and sizes excepted when a descriptor follows |
| Unzip.UnzFile.LoadCurrent | src/quazip/unzip.c:579-740 | the current file is usable exactly if its header parses |
| Unzip.UnzFile.GoToFirstFile | src/quazip/unzip.c:773-788 | to the first header |
| Unzip.UnzFile.GoToNextFile | src/quazip/unzip.c:795-818 | to the header behind this one; at the end nothing changes |
| Unzip.UnzFile.GetCurrentFileInfo | src/quazip/unzip.c:579-768 | numbers and texts of the current file, cut to the buffers |
| Unzip.UnzFile.LocateFile | src/quazip/unzip.c:829-887 | the first entry with the name becomes current, or the position is restored, no entry the walk reaches has the name, and the current file is usable afterwards exactly if the walk does not break at something that is no header |
| Unzip.CompareNames | src/quazip/unzip.c:264-319 | two names are the same as C strings, with or without regard to case |
| Unzip.MatchesMeans | src/quazip/unzip.c:264-319 | names match byte by byte, or, without regard to case, up to the case of the letters a to z |
| Unzip.BreaksAtLast | src/quazip/unzip.c:795-818 | whether the walk breaks is decided behind its last header |
| Unzip.CountEndsWalk | src/quazip/unzip.c:806-809 | the walk ends at the count of the end record, save for 65535, and where no header follows |
| Unzip.UnzFile.OpenCurrentFile | src/quazip/unzip.c:1053-1196 | the state an entry is read from, stored or deflated; the mark for encryption is set with a password and never cleared, and without a password the keys stay those of before |
| Unzip.UnzFile.CloseCurrentFile | src/quazip/unzip.c:1495-1531 | whether the checksum is right, once everything was read |
| Unzip.OpenArchive | src/quazip/unzip.c:399-498 | a handle on the first file exactly if the end record parses |
| ZipEntryReader.EntryReader.Fetch | src/quazip/unzip.c:1271-1311 | a fetch decrypts the next piece with the keys after all before it |
| ZipEntryReader.FetchedWhole | src/quazip/unzip.c:1271-1285 | what is fetched is all, or as many buffers of 16384 bytes as what was delivered takes |
| ZipEntryReader.EntryReader.NextPiece | src/quazip/unzip.c:1271-1341 | one round of the loop gives the next bytes, and fetches whole buffers only when none are left |
| ZipEntryReader.EntryReader.Read | src/quazip/unzip.c:1230-1341 | any number of bytes delivers the next bytes of a stored entry, fewer only at its end |
| ZipEntryReader.EntryReader.Close | src/quazip/unzip.c:1511-1516 | the checksum of what was delivered is compared once all is delivered |
| ZipRoundTrip.WriteArchive | src/quazip/zip.c:698-1262 | entries written in any pieces give exactly the archive of those entries |
| ZipRoundTrip.WalkOnArchive | src/quazip/unzip.c:773-818 | the walk visits the entries in order and no other place |
| ZipRoundTrip.DecryptsToContent | src/quazip/unzip.c:1053-1196 | with the right password the fetched bytes, twelve more than the entry has, decrypt to its content and something behind |
| ZipRoundTrip.ReadArchive | src/quazip/unzip.c:399-1531 | walking a written archive and reading each entry in any pieces gives names, extra fields, comments, attributes and dates, and of each entry the bytes that the keys then on the handle make of it, with the outcome of the checksum |
| ZipRoundTrip.ReadsContent | src/quazip/unzip.c:1053-1341 | with its own password, or on a handle without keys, an entry reads as its content; a plain one on a handle with keys reads as its content decrypted with these |
| ZipRoundTrip.GivesContentIff | src/quazip/unzip.c:1053-1531 | an entry gives its content and no checksum error exactly if it has a password, or the handle has no keys, or the key stream is zero all along |
| ZipRoundTrip.DecryptChangesNothingIff | src/quazip/crypt.h:68-83 | decrypting leaves the first n bytes as they are exactly if the key stream is zero there |
| ZipRoundTrip.CleanGivesContent | src/quazip/unzip.c:1053-1531 | so every entry that is encrypted, or has no encrypted one before it, gives its content |
| ZipExamples.GarbledExample | src/quazip/unzip.c:1185-1191 | an archive of an empty encrypted entry and a plain zero byte, written and read, gives 253 for the zero |
| ZipRoundTrip.WriteThenRead | src/quazip/zip.c:698-1262 | writing and then reading gives that, and what was written for every entry that is encrypted or has no encrypted one before it |
| ZipRoundTrip.Append | src/quazip/zip.c:549-1262 | appending to any file: nothing changes if no end record parses at the last signature; else what precedes the directory stays, the new records follow, then old and new directory and an end record that counts both |
| ZipRoundTrip.ForeignKept | src/quazip/zip.c:549-1262 | so in any archive every byte in front of the directory and every header in it stays what it was |
| ZipRoundTrip.AppendArchive | src/quazip/zip.c:549-1262 | for an archive zip.c wrote, appending gives the archive of old and new entries behind the same bytes; stale bytes remain behind it exactly if it got shorter |
| ZipRoundTrip.AppendThenRead | src/quazip/zip.c:549-1262 | after appending, reading gives the old entries and then the new ones, their contents where encrypted or with no encrypted one before |
| ZipRoundTrip.OldEntriesKept | src/quazip/zip.c:549-668 | an old entry reads the same as before appending |
| ZipRoundTrip.Locate | src/quazip/unzip.c:829-887 | on an archive a name is found exactly if some entry has it, and then the first such entry; a failed search leaves the current file usable exactly if there are entries |
| ZipExamples.MiscountedBreaks | src/quazip/unzip.c:795-818 | with a count above the number of entries the walk breaks behind the last |
| ZipExamples.LoseCurrent | src/quazip/unzip.c:879-886 | a failed search in any such archive makes a usable current file unusable, and restores the position |
| ZipExamples.MiscountedExample | src/quazip/unzip.c:879-886 | one entry and a count of two is such an archive |
| Dicts.NextPower | src/hiredis/dict.c:306-315 | the least power of two from 4 on that is not below the size |
| Dicts.BucketIsRemainder | src/hiredis/dict.c:118-118 | with a power of two as size the bucket is the hash modulo the size |
| Dicts.Dict.Expand | src/hiredis/dict.c:88-131 | rehashing hangs every entry in its new bucket: entries and map unchanged, `used` restored; the size is the least power of two from 4 on that is enough |
| Dicts.Dict.ExpandIfNeeded | src/hiredis/dict.c:295-303 | afterwards there is room for one more entry: 4 chains at first, twice as many when the table is full, else nothing changes |
| Dicts.Dict.KeyIndex | src/hiredis/dict.c:320-337 | the bucket for a new key, or -1 exactly if the key is there |
| Dicts.Dict.Add | src/hiredis/dict.c:135-155 | adds exactly if the key is new |
| Dicts.Dict.Replace | src/hiredis/dict.c:160-179 | afterwards the key has the value; says whether it is new |
| Dicts.Dict.Delete | src/hiredis/dict.c:182-210 | removes the key, exactly that entry from its chain, and says whether it was there |
| Dicts.Dict.Find | src/hiredis/dict.c:243-256 | the entry of the key, null exactly if the map lacks it |
| Dicts.RunOps | src/hiredis/dict.c:88-256 | any sequence of operations answers as on a map and leaves that map |
| DictIterators.UsedIsCount | src/hiredis/dict.c:88-256 | `used` is the number of keys, at most the size |
| DictIterators.FlatIsAll | src/hiredis/dict.c:258-286 | the chains hold every entry exactly once |
| DictIterators.DictIterator.constructor | src/hiredis/dict.c:258-266 | an iterator has all entries ahead, with 2^31 chains none |
| DictIterators.DictIterator.Next | src/hiredis/dict.c:268-286 | returns the first of the entries ahead, or null if there is none |
| DictIterators.DeleteKeepsAhead | src/hiredis/dict.c:268-286 | deleting an entry already returned leaves the entries ahead as they are |
| DictIterators.VisitAll | src/hiredis/dict.c:258-286 | a walk returns every entry exactly once, even if entries are deleted right after they are returned, exactly if there are fewer than 2^31 chains or no entries; else it returns nothing |
| DictIterators.FirstAtLimit | src/hiredis/dict.c:268-286 | the first call returns null exactly if the table is empty or has 2^31 chains, the most it can have |
| AsyncArguments.ArgumentsOfCommand | src/hiredis/async.c:539-551 | walking over a formatted command finds its arguments, binary ones included |
| AsyncArguments.NextOfArgument | src/hiredis/async.c:539-551 | one argument is found whatever bytes it has |
| CallbackQueues.CallbackList.Push | src/hiredis/async.c:202-222 | appends to the queue |
| CallbackQueues.CallbackList.Shift | src/hiredis/async.c:224-238 | takes the first from the queue |
| Async.AsyncContext.Command | src/hiredis/async.c:556-618 | accepted exactly if the context is not closing, and for an unsubscription only while subscribed; the callback of a regular command or of MONITOR joins the queue for replies, of a regular one while subscribed the queue for commands that will fail |
| Async.AsyncContext.AddSubscriptions | src/hiredis/async.c:580-590 | the callback is registered for every channel or pattern named |
| Async.AsyncContext.RunCallback | src/hiredis/async.c:240-247 | a callback that is not null runs once, with this reply, which is recorded, and makes the calls of its script; none of them tears the context down, none adds to a queue once the context is closing, and flags and tables are what those calls make of them |
| Async.AsyncContext.Take | src/hiredis/async.c:224-238 | the first of the queue is taken for a reply or for null, and its run with that is then due |
| Async.AsyncContext.AsyncFree | src/hiredis/async.c:298-303 | at once outside callbacks, else later |
| Async.AsyncContext.AsyncDisconnect | src/hiredis/async.c:332-337 | at once only outside callbacks with nothing waiting |
| Async.AsyncContext.DisconnectNow | src/hiredis/async.c:306-324 | the assertion on waiting callbacks fails exactly without an error and with some waiting; otherwise the context is torn down |
| Async.AsyncContext.Teardown | src/hiredis/async.c:250-292 | what waits is run with null in order, then the failed commands in order, then the callbacks of the channels and of the patterns, each exactly once; it ends, and the disconnect status follows the flags |
| Async.AsyncContext.TakeMessage | src/hiredis/async.c:349-378 | a message finds its callback in the table its type names; an unsubscription changes that table and the flag, and nothing else changes either table |
| Async.AsyncContext.GetSubscribeCallback | src/hiredis/async.c:339-384 | the callback of a reply no command waits for, what flags and tables are then, and exactly when an assertion on the message fails |
| Async.AsyncContext.ServeReply | src/hiredis/async.c:411-456 | the first waiting callback runs with the reply; without one an error ends the context, and anything else runs the callback of its subscription, the next failed command, or the callback left over from the reply before, or fails exactly as FailureAt says; flags and tables are what the message and then the calls of the callback make of them |
| Async.AsyncContext.NoMoreReplies | src/hiredis/async.c:393-409 | a pending disconnect happens once all is sent; replies still missing make the assertion fail, exactly then; while monitoring the last callback is queued again, and the program fails exactly if there was none |
| Async.AsyncContext.ServeReplies | src/hiredis/async.c:392-457 | the replies are served in order, all of them unless one ends the context |
| Async.AsyncContext.ProcessCallbacks | src/hiredis/async.c:386-462 | all replies are served in order, up to the one that ends the context; in what state each failure and each kind of end leaves it, and that a clean end gave nobody null |
| Async.AsyncContext.HandleConnect | src/hiredis/async.c:467-484 | the first event decides whether the connection stands |
| Async.AsyncContext.HandleRead | src/hiredis/async.c:489-508 | a read serves its replies, or gives null to all that wait and ends the context, or leaves it as it is |
| Async.AsyncContext.HandleWrite | src/hiredis/async.c:510-535 | a write removes what went out and changes nothing else, or ends the context as a read does |
| Async.AsyncContext.Run | src/hiredis/async.c:250-618 | after any events: the calls of the client and the replies read are those of the events handled, all of them while the context is in use; the callbacks run called what their scripts say; what was accepted are the regular commands before the end; and the history is paired, unless there were subscriptions or MONITOR |
| Async.AsyncContext.Handle | src/hiredis/async.c:489-535 | one event: what it does, what it adds to calls and replies, and when it fails |
| AsyncExamples.PendingExample | src/hiredis/async.c:393-399 | a command, a write, a disconnect and a read without a whole reply make the assertion on waiting callbacks fail |
| AsyncExamples.MonitorExample | src/hiredis/async.c:401-404 | MONITOR and a read without a whole reply make the program use a callback that was never set |
| AsyncExamples.RefusedExample | src/hiredis/async.c:467-477 | a connection that is refused gives null to the command that waits |
| AsyncExamples.InProgressExample | src/hiredis/async.c:470-472 | an error found while connecting is met by the next read, whatever that brings |
| AsyncExamples.PartialExample | src/hiredis/async.c:510-527 | what a write does not take stays to be written |
| AsyncTrace.CallbackPairing | src/hiredis/async.c:386-462 | without subscriptions and MONITOR the k-th accepted command's callback ran with the k-th reply, unless it is null; the others are still queued, or ran with null in order once the context is gone |
| PublishSubscribe.CommandKinds | src/hiredis/async.c:571-612 | what a command is, by its name in upper or lower case: (P)SUBSCRIBE with arguments, (P)UNSUBSCRIBE, MONITOR, or a regular one |
| PublishSubscribe.AcceptedWhen | src/hiredis/async.c:560-594 | accepted exactly if the context is not closing and, for (P)UNSUBSCRIBE, subscribed |
| PublishSubscribe.SubscribeRegisters | src/hiredis/async.c:577-590 | an accepted (P)SUBSCRIBE registers its callback for every name behind the first argument, as a pattern exactly if its own name starts with a p, and changes no other registration |
| PublishSubscribe.OtherCallsKeep | src/hiredis/async.c:556-618 | no other call changes a registration |
| PublishSubscribe.MessageFinds | src/hiredis/async.c:349-364 | a message finds the callback registered for its name, among the patterns exactly if its type starts with a p, and does not stop the program |
| PublishSubscribe.MessageLost | src/hiredis/async.c:362-364 | one for which nothing is registered gets the callback of the reply before it, or, if there was none, stops the program |
| PublishSubscribe.MessageRemoves | src/hiredis/async.c:366-377 | an (P)UNSUBSCRIBE message ends the one registration it names and no other, all other messages end none, and the context stops being subscribed exactly if such a message for something registered counts 0 |
| PublishSubscribe.BadMessages | src/hiredis/async.c:349-374 | an array that is no message, and an unsubscribe message without its count, stop the program |
| PublishSubscribe.LastSubscriptionCounts | src/hiredis/async.c:349-590 | whatever calls and messages come in between, a name finds the callback of its last subscription, until a message ends that; then none until the next |
| PublishSubscribe.Deliver | src/hiredis/async.c:386-456 | serving a message runs the callback that is registered for its name, with the message |
| PublishSubscribe.SubscribeThenMessage | src/hiredis/async.c:349-590 | after an accepted (P)SUBSCRIBE a message for any of its names, whose type starts with a p exactly if the command does, runs its callback with the message |
| PublishSubscribe.CommandThenReply | src/hiredis/async.c:380-383 | while subscribed, the callback of a regular command runs with the next reply that is neither an array nor an error |
| PublishSubscribe.RegularThenReply | src/hiredis/async.c:406-447 | else it runs with the next reply of any kind |
| AsyncTrace.RunsAll | src/hiredis/async.c:240-247 | all callbacks taken run, in order, if none is null |
| Services.SortSorts | src/service_spawner/service.cc:616-635 | the dependencies are sorted and none is lost |
| Services.SvdService.InstallSlot | src/service_spawner/service.cc:525-561 | the install hook runs exactly if the service is not installed, and the marker of its running is removed |
| Services.SvdService.ConfigureSlot | src/service_spawner/service.cc:584-613 | at most once, and marked configured only if the output was as expected |
| Services.SvdService.PrepareSelf | src/service_spawner/service.cc:672-678 | installed first, and then configured unless the marker is there; nothing happens to any other service |
| Services.SvdService.ValidateSlot | src/service_spawner/service.cc:1047-1081 | an old failure is cleared, unless there is no hook or one is at work |
| Services.SvdService.ConfigureDependencies | src/service_spawner/service.cc:680-698 | every dependency is taken in the configure order, its installation asked for, and its configuration, unless its marker was there before or a hook run since created it |
| Services.SvdService.LaunchDependencies | src/service_spawner/service.cc:700-725 | every dependency is taken, in the start order, with its own; afterwards it runs or its start was refused; all run if all services of lower rank are sound |
| Services.SvdService.Launch | src/service_spawner/service.cc:740-776 | the service counts as running after its start hook |
| Services.SvdService.StartSlot | src/service_spawner/service.cc:638-777 | ends; without room, or for a service that runs, nothing is done; else it runs in the end or its validation left the failure marker; without dependencies no other service is launched, touched or kept, and every event is one of its own; it is not refused if it and all services of lower rank are sound, and is if it is doomed; keeps the start discipline; if none was refused the objects kept are exactly the services launched, each once |
| Services.LaunchedOnce | src/service_spawner/service.cc:638-777 | in a disciplined log no service is launched twice |
| Services.TakenInOrder | src/service_spawner/service.cc:680-725 | in a disciplined log a service configures its dependencies in the configure order and starts them in the start order |
| Services.ConfiguredBeforeStart | src/service_spawner/service.cc:672-708 | in a disciplined log a service starts its dependencies only after its own installation and after all of them were taken for configuration |
| Services.LaunchedWhenReady | src/service_spawner/service.cc:665-776 | in a disciplined log a service is launched only when it does not run, after its installation and directly after a validation without failure marker; together with its dependencies only when each was installed, was taken in both phases, and runs or was refused |
| Services.RefusedForCause | src/service_spawner/service.cc:642-738 | in a disciplined log a start is refused only without room, or directly after a validation with the failure marker there |
| Services.SvdService.StopSlot | src/service_spawner/service.cc:873-954 | stops the service and then the tree started for it, and nothing else: only stop and after-stop hooks of these run, its own stop hook first and its after-stop hook last; a service that does not run is left alone with its tree |
| Services.SvdService.AfterStopSlot | src/service_spawner/service.cc:967-993 | the running marker goes, unless another after-stop is at work |
| Services.SvdService.StopSelf | src/service_spawner/service.cc:890-938 | the stop hook runs, the running marker goes at once if the pid file is usable, and of the markers then there exactly seven of work in progress are removed |
| Services.SvdService.RestartSlot | src/service_spawner/service.cc:996-1007 | ignored after a shutdown; else stopped, and then, unless there is no room, launched anew or refused for a failed validation; without dependencies exactly this service stops, no other is launched or touched; with them its whole tree stops, if it ran |
| Services.SvdService.StartThenStop | src/service_spawner/service.cc:638-954 | start then stop restores the running services if no start was refused, which holds if the service and all of lower rank are sound; with those of lower rank sound, it does exactly if the service started or all its dependencies ran before |
| Services.LeftBehind | src/service_spawner/service.cc:727-738 | a service whose validations fail, started and stopped, leaves its dependency running |
| Rotation.SizeRotationStrategy.LastToShift | src/qslog/QsLogDestFile.cpp:72-80 | the last backup before a gap, but not the one in the last slot |
| Rotation.SizeRotationStrategy.ShiftUp | src/qslog/QsLogDestFile.cpp:82-92 | the backups move up by one and no renaming fails |
| Rotation.SizeRotationStrategy.Rotate | src/qslog/QsLogDestFile.cpp:63-102 | the backups before the first gap move up, the log becomes the first, everything else stays; no renaming fails |
| Rotation.SizeRotationStrategy.SetBackupCount | src/qslog/QsLogDestFile.cpp:115-119 | at most ten backups |
| Rotation.RotationKeeps | src/qslog/QsLogDestFile.cpp:63-102 | a rotation throws away nothing while a slot is free and else exactly the oldest file |
| Rotation.LoweredCountLosesMiddle | src/qslog/QsLogDestFile.cpp:63-102 | with more backups than allowed a rotation throws a file out of the middle, and with none allowed the log itself |
| Rotation.FileDestination.Write | src/qslog/QsLogDestFile.cpp:134-149 | what is on disk grows by the message; it rotates exactly when the counted size exceeds the maximum |
| Rotation.FileDestination.WriteAll | src/qslog/QsLogDestFile.cpp:134-149 | after any messages, what is on disk is the end of the first contents and everything logged, with at most the allowed backups; something is lost only if all slots are full |

## Left out

- Error texts: a reader error is its kind and the offending byte.
- Memory that runs out, and buffers beyond 2 GiB, whose lengths the C code truncates to `int`.
- ReplyReader.ReadLongLong: signed overflow, undefined in C, is taken to wrap at 64 bits.
- An array count that is positive as a `long` and not as an `int`: the C code writes through a null pointer, the model
  reports `CountRange`.
- The object and parent links of a read task are paths into the reply tree, which is one value.
- The changing address of a reallocated string: the string is a field of an object that keeps its identity.
- Commands.FormatCommand: a format that ends inside a printf directive, behind which the C code reads on; how a number
  is printed.
- Replacing the reply object functions of a reader.
- Compressing and inflating, which belong to zlib, raw mode, archives on several disks, 65535 entries or more, and
  appending behind a file without looking for an archive.
- ZipEntryReader.EntryReader.Read: only for stored entries.
- ZipRoundTrip.ReadArchive: archives whose comment holds another end signature, where the search finds that one;
  `SearchFindsEnd` says exactly when.
- Failing writes and seeks of the file, and files that change under a reader.
- The functions `dictRelease` and `dictGenHashFunction`: the hash is a parameter.
- Dicts.Dict.Expand: tables of more than 2^31 buckets, whose bucket numbers do not fit an `int`.
- Async.AsyncContext.Command: a command without arguments, at which the C code fails an assertion.
- Async.AsyncContext.HandleConnect: the connect callback gets a constant context and makes no calls.
- Event library hooks, timeouts, and the socket itself.
- Timers, the baby sitter, cron entries, processes and pid checks, notifications, and the reload slot; configuration
  files that change during a start.
- Services.SvdService.StartThenStop: an exact condition when services of lower rank are not sound; a second attempt
  through another parent can then leave services behind.
- Two objects for one service at work at the same time, and objects that were started before (only fresh ones are
  proved to hold exactly what they launched).
- Failing file operations during rotation, and a `%1` in the name of the log.
