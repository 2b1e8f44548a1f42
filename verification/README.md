# swICC: a verified model of the card

swICC is a software smart card. This project models the four parts of it that depend on each
other and proves what they promise together:

1. **BER-TLV codec** (`BerTlv`, `BerTlvEncoder`, `BerTlvDecoder`). The encoder fills a buffer
   from its end to its front, nested encoders share their parent's buffer, and a dry run finds
   the size. It is proved to refine a recursive forward `Encode`, which a strict decoder written
   from ITU-T X.690 sections 8.1.2, 8.1.3 and 10.1 (with the limits of ISO/IEC 7816-4:2020
   clause 6.3) inverts exactly. The repository's own decoder inverts it on part of the encodings
   only; the model says on exactly which. `TlvBytes` states the octets one by one, and those of the
   templates of files.
2. **The serialised file system and its indexes** (`FsFormat`, `DiskItems`, `ItemLaws`, `DiskJs`,
   `Lut`, `DiskWalk`, `DiskIndex`, `Disk`, `DiskFile`). Items are serialised in place; what is read
   back is the tree they describe; the walk over it visits every file (a nested folder twice);
   two lookup tables, sorted by binary-search insertion, answer exactly as a plain walk would;
   saving and loading gives the same disk.
3. **Validity area, commands and response chaining** (`VaSpec`, `OrderLaws`, `PathBytes`, `FileSys`,
   `ApduRc`, `Apdu`, `Fci`, `FciBuild`, `ApduhSpec`, `Apduh`). What P1, P2 and the data of a
   command mean and what it is answered with is stated once more in bytes, indices and status
   words, in `AddressLaws`, `AnswerLaws` and `SelectLaws`; the laws about several commands are in
   `CardLaws`, `RecordLaws`, `ResponseLaws` and `BufferLaws`, and an example is in `Stray`.
4. **The card state machine** (`Pps`, `FsmSpec`, `FsmLaws`, `FeedLaws`, `Fsm`) over any command
   handler, and with the built-in ones (`CardMachine`). `FeedLaws` says how much the card asks for
   and that an interface that sends exactly that gets a session through. `Startup` goes from items
   to a card that is ready.

Code that changes state is modelled by classes and methods (`Encoder`, `Decoder`, `Table`,
`Visitor`, `FileSystem`, `Buffer`, `Handlers`, `Icc`), each proved equal to a function of the
state before; the laws are proved about those functions.

Where the code does not do what it is for, the exact condition is proved:

- A tag number survives encoding exactly when it is below 2^14 (`TagNumberSurvives`).
- The repository's decoder reads back exactly tag numbers up to 127, and multiples of 129
  (whose two groups are equal), with values of at most 127 bytes (`WalkExactly`).
- SELECT by a path can step on from an EF, and the code then walks over the data of the EF as if
  they were headers. Every command leaves the disk and the validity area consistent, except
  exactly a SELECT that so makes bytes the current file that are no file of any tree
  (`CommandKeepsExactly`, `StepKeepsExactly`, `StepFromEfExactly`); paths through folders never
  do (`FoldersDoNotStray`, `PathAgrees`), and one disk and command that do are in `Strayed`.
- A PPS request is agreed to exactly when it is well-formed and does not propose the default
  values in PPS1, which the response leaves out (`ExchangeExactly`).
- More bytes are sent than there is room for exactly in two cases: the response to a well-formed
  PPS request when there is room for all of it but the check byte, and a status word when there
  is room for less than two bytes (`StepFitsExactly`, over runs `RunFitsExactly`, with inputs in
  `PpsOverruns` and `StatusOverruns`).
- Records of a cyclic EF are read by absolute number but selected relative to the current
  record, so the record read becomes the current one exactly when the EF is linear-fixed, was
  selected by the command, or had record 0 current (`RecordBecomesCurrent`).
- READ RECORD and UPDATE RECORD with a P2 that means several records, from P1 to the last or from
  the last to P1, do what they do for the record P1 alone (`RecordAlone`).
- A command that addresses an EF by short identifier keeps the current DF exactly when the EF is
  directly in it (`DfStays`, `ReadMovesDf`, `BinaryMovesDf`).
- A DF name is searched for in the second tree only, and what is found has the name exactly when
  the name is its first byte and zeros (`ByNameExactly`).
- SELECT is not undone when its answer cannot be built, which is exactly when the file has more
  than 255 records (`SelectExact`).
- What is sent is independent of what an uninitialised response buffer held, except exactly for
  UPDATE RECORD of a record that exists with data of another length, which is answered with as
  many bytes of the buffer as the record has (`HiddenExactly`, `BufferLeaks`).
- GET RESPONSE with P3 = 0 is answered 9000 while bytes are left; with any other P3, 9000 tells
  that nothing is left (`NormalTells`). No GET RESPONSE loses or repeats a byte (`GetExact`).
- After a command, as many bytes can be fetched as it announces, or none, but a command outside
  the interindustry class leaves what there was (`ResumeExactly`), although a comment says that
  resuming deterministically fails (src/apduh.c:1451-1455).
- Headers can arrive in any pieces, but the data of SELECT and UPDATE RECORD only in one,
  because it is asked for once (`HeaderInPieces`, `DataWhole`).
- The first header byte after the answer to reset is kept exactly when no command was processed
  since the last `swicc_reset` (`FirstByte`).
- A disk is loaded back exactly when its file is no longer than 2^32 - 1 bytes (`LoadSaved`).

Notation: octets, status words and IDs such as 3F00 are hexadecimal. `Dir` is a file with what is
directly in it, `Files` lists a tree in pre-order, and a predicate such as `Mounted` says that
buffers hold given trees and that the tables answer for them. `junk` and `b` stand for the
uninitialised contents of a response buffer.

## Model

| member | source | states |
|---|---|---|
| BerTlv.DecodeExactly | src/dato.c:176-376 | A strict decoder accepts a buffer as an object followed by a rest exactly when the buffer is that object's encoding followed by that rest; encodings are unique and prefix-free |
| BerTlv.DecodeEncodeAll | src/dato.c:176-376 | Decoding a concatenation of encodings gives the objects back |
| BerTlv.TagNumberSurvives | src/dato.c:271-353 | A tag number is read back if and only if it is below 2^14 |
| TlvBytes.LeadingOctet | src/dato.c:271-300 | The first octet of an encoding is 00..3F, 40..7F, 80..BF or C0..FF exactly for the universal, application, context-specific and private class; 20 is set exactly for constructed objects, and the low five bits are the number or 1F (X.690 section 8.1.2.2) |
| TlvBytes.HeaderOctets | src/dato.c:190-356 | Every octet between the first and the value: a longer number in one or two groups, then the length in one to five octets |
| TlvBytes.StrictTag | src/dato.c:271-356 | What a strict decoder takes from the same octets, and which it accepts |
| TlvBytes.RepositoryTag | src/dato.c:12-91 | What the repository's decoder takes from them; it accepts leading zero groups and takes the groups the other way round |
| TlvBytes.RepositoryLength | src/dato.c:93-163 | The length it takes from 81, 82 and 83 and the octets behind them, and which first octets it refuses |
| BerTlvEncoder.LenField | src/dato.c:190-269 | The loop that extracts, counts and moves length octets yields the minimal length field |
| BerTlvEncoder.TagField | src/dato.c:271-356 | The loop over 7-bit groups yields the tag octets without leading zero groups |
| BerTlvEncoder.Encoder.Header | src/dato.c:481-518 | Puts exactly the header octets in front of the pending value, or reports a buffer that is too short and touches nothing at or behind the offset |
| BerTlvEncoder.Encoder.Data | src/dato.c:520-540 | Puts the bytes in front of what is there, or changes nothing |
| BerTlvEncoder.Encoder.NestedStart | src/dato.c:452-464 | A nested encoder shares the buffer in front of what its parent holds |
| BerTlvEncoder.Encoder.NestedEnd | src/dato.c:466-479 | What a nested encoder holds becomes the parent's pending value, offset and length still adding up to the size |
| BerTlvEncoder.EncodeTree | src/fs/diskjs.c:837-1023 | Succeeds exactly on accepted trees that fit, and then holds the forward encoding of the tree in front of what was there |
| BerTlvEncoder.EncodeItem | src/fs/diskjs.c:1036-1110 | The dry run finds the size of the encoding; the real run in exactly that many bytes cannot fail and fills them |
| BerTlvDecoder.HdrPrs | src/dato.c:93-163 | The decoder's header parser as a function of the bytes, with its errors |
| BerTlvDecoder.TagPrs | src/dato.c:12-91 | The same for the tag |
| BerTlvDecoder.Decoder.Next | src/dato.c:415-431 | Moves to the next object, or reports the end exactly at the end |
| BerTlvDecoder.Decoder.Cur | src/dato.c:398-413 | Gives a decoder for the value of the current object |
| BerTlvDecoder.Rebuild | src/dato.c:398-431 | Following next and cur visits every object once and ends exactly at the end of the region |
| BerTlvDecoder.HdrReadExactly | src/dato.c:55-163 | The parser agrees with the encoder on a header if and only if the tag number is readable and the length at most 127; a longer length is always read too small |
| BerTlvDecoder.WalkExactly | src/dato.c:398-431 | The decoder rebuilds a list of trees from its encoding if and only if every tag number and length in it is readable |
| FsFormat.HdrParses | src/fs/common.c:101-175 | A written file header is parsed back to the same file |
| FsFormat.FileOctets | include/swicc/fs/common.h:102-215 | The octets of a written header, one by one: size, offset from the parent, type 1 to 6, life cycle status, ID, SID, and a name or record size |
| FsFormat.OctetsParse | src/fs/common.c:101-175 | Which octets parse as a header, and what each field and the place of the data are |
| FsFormat.NodesApart | src/fs/disk.c:322-398 | In a well-formed tree no two files that are not folders overlap, and a folder lies around what is in it |
| FsFormat.DataFrame | src/fs/common.c:101-175 | A change inside the data of an EF leaves every header of the tree as it was read |
| DiskJs.WriteItem | src/fs/diskjs.c:273-835 | Serialising an item in place: valid items are written whole when they fit, reported too long when they do not, and invalid ones fail |
| DiskJs.WriteKids | src/fs/diskjs.c:273-345 | The contents of a folder follow each other without gaps, each with its offset from the folder |
| DiskJs.WriteCyclic | src/fs/diskjs.c:807-835 | A cyclic EF is a linear-fixed one with its type changed |
| DiskItems.TreeReadBack | src/fs/diskjs.c:358-835 | A serialised root item is read back as exactly the tree it describes: identifiers, types, names, nesting and data |
| ItemLaws.HeaderSays | src/fs/diskjs.c:358-835 | The header of every kind of item: type, identifiers, active, the name filled up with zeros or the record size, and the size |
| ItemLaws.RcrdSays | src/fs/diskjs.c:674-740 | Byte j of record i is byte i times the record size plus j of the data, and FF behind the end of the record |
| Startup.ItemsMakeDisk | src/fs/diskjs.c:1279-1453 | Serialised MF and ADF items are a well-formed disk of exactly the files they describe |
| Lut.InsertedSorted | src/fs/disk.c:24-76 | Insertion keeps a table sorted |
| Lut.InsertedLookup | src/fs/disk.c:24-76 | A new entry answers for its key and hides no other key |
| Lut.Table.Search | src/fs/disk.c:44-60 | Binary search finds the first entry that is not smaller |
| Lut.Table.Insert | src/fs/disk.c:24-76 | Growing, searching and shifting both arrays inserts one entry at its place |
| DiskWalk.FileForeach | src/fs/disk.c:322-398 | The walk calls back for the start file and everything in it in pre-order, ends at the end of the folder, and stops where a callback stops it |
| DiskIndex.VisitsAgree | src/fs/disk.c:340-360 | Calling back twice for nested folders finds the same first and last matches as a plain pre-order list |
| DiskIndex.RunPutId | src/fs/disk.c:538-562 | After a walk the ID table leads to the last file visited that has an ID, and is otherwise unchanged |
| Disk.LutIdRebuild | src/fs/disk.c:564-616 | The rebuilt ID table answers every ID with the last file of the forest that has it |
| Disk.LutSidRebuild | src/fs/disk.c:641-680 | The same per tree for short identifiers |
| Disk.IdLookupExact | src/fs/disk.c:729-791 | An ID is found if and only if it is not zero and some file has it, and leads to the last such file and its tree |
| Disk.SidLookupExact | src/fs/disk.c:682-727 | A SID is found if and only if it is not zero and some file of the tree has it, and leads to the last such file |
| Startup.IdSelectable | src/fs/va.c:255-266 | A file can be selected by an ID exactly when some file of the disk has that ID |
| DiskFile.Save | src/fs/disk.c:287-320 | The file is the signature followed by the trees |
| DiskFile.Load | src/fs/disk.c:78-267 | Loading accepts exactly the files the format describes and returns their trees |
| DiskFile.ParseExactly | src/fs/disk.c:78-267 | A file loads as given trees if and only if it is the sixteen signature bytes and the trees one after the other, each as long as its first four bytes say and of type 1 for the first (and every 256th) or 2 for all others, and no longer than 2^32 - 1 |
| DiskFile.LoadSaved | src/fs/disk.c:78-320 | Loading what was saved gives the same trees, if and only if the file's length fits 32 bits |
| DiskFile.SaveAndLoad | src/fs/disk.c:78-320 | After saving and loading, every ID and SID is answered as before |
| VaSpec.SelectedOk | src/fs/va.c:13-100 | Selecting any file keeps the validity area consistent: file, EF, DF, its tree and the current application agree |
| VaSpec.SelectRcrdOk | src/fs/va.c:378-404 | Selecting an existing record leaves the current record below the record count; it is the one asked for if and only if the EF is linear-fixed or record 0 was current |
| VaSpec.SelectPathOk | src/fs/va.c:302-376 | Selecting by a path on the tree keeps the validity area consistent and changes nothing when it fails |
| VaSpec.PathStepVisit | src/fs/va.c:288-360 | One step of a path, a walk over one folder, stays where the ID is the folder's own and else goes to the first child with it |
| VaSpec.TreeParent | src/fs/disk.c:883-896 | The parent offset of a file leads to the folder it is directly in |
| OrderLaws.FilesAscend | src/fs/disk.c:322-398 | The files of a tree are listed by strictly increasing offsets |
| VaSpec.ByNameExactly | src/fs/va.c:158-253 | A search for a DF name succeeds if and only if a file of the second tree has a name that begins with its first byte and zeros after that; what is found has the name searched for if and only if that is of this form |
| PathBytes.PathAgrees | src/fs/va.c:302-376 | Along a path through folders, the walks over the bytes end where the left fold over the tree does, and the same is selected |
| PathBytes.PathKeepsExactly | src/fs/va.c:302-376 | Whatever the path, selecting by it keeps the validity area consistent if and only if it does not select bytes that are no file of the tree; when it fails nothing changes |
| PathBytes.WalkHits | src/fs/disk.c:346-398 | For any file and any bytes, a walk hits a header if and only if there is a chain of headers from its start, each as far from the next as it says in 32 bits, of which that is the first with the ID |
| PathBytes.SelectedAsSays | src/fs/va.c:13-100 | Every field of the validity area after any header is selected |
| PathBytes.StepFromEfExactly | src/fs/disk.c:346-352 | A step on from an EF keeps the validity area consistent if and only if it selects nothing |
| PathBytes.PlantedHeader | src/fs/disk.c:346-352 | Data at the beginning of an EF that spell a header of any file are found by a step on from the EF, as a file that is not in the tree |
| FileSys.FileSystem.SelectFile | src/fs/va.c:13-100 | Rewrites the validity area as the rules of ISO/IEC 7816-4:2020 clause 7.2.2 say |
| FileSys.FileSystem.SelectAny | src/fs/va.c:13-100 | The same on any bytes that parse as a header, whether or not they are a file of the tree |
| FileSys.SearchFile | src/fs/disk.c:322-398 | The walk of one step of a path over any file, folder or not: the first header with the ID, the end, or bytes that are no header |
| FileSys.FileSystem.SelectId | src/fs/va.c:255-266 | Selects the last file of the forest with the ID, or changes nothing |
| FileSys.FileSystem.SelectSid | src/fs/va.c:268-279 | Selects the last file of the current tree with the SID, or changes nothing |
| FileSys.FileSystem.SelectAdf | src/fs/va.c:118-156 | Selects the first ADF whose AID starts with the bytes given, or changes nothing |
| FileSys.FileSystem.SelectDfName | src/fs/va.c:200-253 | Searches the second tree only, for the first byte of the name followed by zeros |
| FileSys.FileSystem.SelectByPath | src/fs/va.c:302-376 | Does what the walks over the bytes find for any path; through folders this is what the left fold over the tree says; the validity area stays consistent if and only if the path ends at no planted header |
| FileSys.FileSystem.SelectRcrdIdx | src/fs/va.c:378-404 | Records of a cyclic EF are counted from the current one; any index is accepted |
| FileSys.FileSystem.Reset | src/fs/va.c:102-116 | Clears the validity area and selects the MF |
| FileSys.FileSystem.WriteData | src/apduh.c:1255-1264 | Writing into an EF changes those bytes of that tree and nothing else; the disk stays well-formed and indexed |
| FileSys.MountedAfterWrite | src/fs/common.c:101-175 | After a write into an EF the same files are found through the same tables |
| ApduRc.Buffer.Enqueue | src/apdu_rc.c:12-33 | Adds bytes behind what is there, or nothing when they do not fit |
| ApduRc.Buffer.Dequeue | src/apdu_rc.c:35-64 | Hands out the next bytes, or none and tells how many there are |
| ApduRc.DeqSplits | src/apdu_rc.c:35-74 | What is handed out and what is left are what was left before |
| Apdu.ClaExactly | src/apdu.c:4-55 | A class byte means a logical channel, chaining and secure messaging exactly when it is built from them; which bytes are interindustry and which reserved |
| Apdu.ClaFirst | src/apdu.c:4-55 | Chaining, secure messaging and channel by the value of a class byte below 20 |
| Apdu.ClaSecond | src/apdu.c:4-55 | The same from 40 to 7F |
| Apdu.Deparse | src/apdu.c:80-176 | The bytes sent for a response, never more than there is room for, or the error |
| Apdu.SentExactly | src/apdu.c:80-176 | What is sent for each first status byte, and that a response can be sent if and only if there is room, at most 256 bytes of data, and no second status byte where there must be none |
| Apdu.WireRead | src/apdu.c:110-175 | A terminal can tell data, status and procedure bytes apart again |
| Fci.FileDescr | src/fs.c:124-169 | The descriptor of a file; there is none for more than 255 records |
| Fci.TemplateSize | src/apduh.c:327-527 | No template is longer than 44 bytes |
| Fci.TemplateReadBack | src/apduh.c:327-527 | The repository's decoder and a strict one read back exactly the requested template |
| Fci.ParamsTell | src/apduh.c:387-478 | Each control parameter is there if and only if the file has it, with the file's own value |
| Fci.TemplateDetermines | src/apduh.c:387-478 | Files with the same template have the same ID, SID, life cycle status, size, kind, name and records |
| TlvBytes.TemplateOctets | src/apduh.c:327-527 | Every octet of the FCP, FMD and FCI template of any file: tags 62, 64, 6F, 82, 83, 84, 8A, 88, 80, their lengths and values |
| FciBuild.Build | src/apduh.c:351-508 | The dry run and the real run agree; the response buffer begins with the encoded template |
| Apduh.Handlers.BinRead | src/apduh.c:568-741 | READ BINARY answers and selects as specified, with every error case |
| Apduh.Handlers.RcrdRead | src/apduh.c:756-1018 | READ RECORD likewise |
| Apduh.Handlers.RcrdUpdate | src/apduh.c:1027-1289 | UPDATE RECORD likewise, writing into the tree in place |
| Apduh.Handlers.ResGet | src/apduh.c:1297-1385 | GET RESPONSE likewise |
| Apduh.Handlers.SelectFile | src/apduh.c:28-560 | SELECT likewise, for all supported methods |
| Apduh.Handlers.Dispatch | src/apduh.c:1435-1515 | The demultiplexer by class and instruction; all but GET RESPONSE drop what was queued |
| Apduh.RcrdInside | src/fs/disk.c:793-836 | A record that is counted lies inside the data of its file |
| AddressLaws.BinaryMeaning | src/apduh.c:604-680 | P1 and P2 of READ BINARY mean offset 256 P1 + P2 of the current EF below 80, offset P2 of the last file of the current tree whose SID is P1 - 80 up to 9F, and 6986, 6A82, 6F00 or 6A86 otherwise; exactly one of these |
| AddressLaws.RcrdMeaning | src/apduh.c:816-982 | P1 and P2 of READ RECORD and UPDATE RECORD mean record P1 of the current EF or of the last file with SID P2 / 8, if that record fits the data, and 6A81, 6A82, 6A83, 6A86 or 6F00 otherwise; exactly one of these |
| AnswerLaws.BinaryAnswers | src/apduh.c:568-741 | Every answer of READ BINARY by what P1 and P2 mean; on success the P3 bytes of the file's data from the offset on |
| AnswerLaws.ReadAnswers | src/apduh.c:756-1018 | Every answer of READ RECORD; on success bytes (P1 - 1) n to P1 n of the file's data, n being the record size in its header |
| AnswerLaws.UpdateAnswers | src/apduh.c:1027-1289 | Every answer of UPDATE RECORD; on success exactly these bytes of the file's data are replaced |
| AnswerLaws.BinarySelects | src/apduh.c:708-741 | After READ BINARY the file addressed by SID is selected, and nothing changes otherwise |
| AnswerLaws.RcrdSelects | src/apduh.c:984-1010 | After a record command so it is, and the current record is P1 - 1, or for a cyclic EF that was current the sum of that and the current record modulo the number of records |
| AnswerLaws.OthersAnswer | src/apduh.c:1435-1515 | Reserved classes are answered 6E00, proprietary ones and unknown instructions 6D00; only the last drop what was queued |
| CardLaws.CommandKeeps | src/apduh.c:1435-1515 | Every command but a SELECT that strays off the tree leaves the disk well-formed and indexed and the validity area consistent |
| CardLaws.CommandKeepsExactly | src/apduh.c:1435-1515 | A command leaves the card consistent if and only if it is no SELECT by a path that ends at a planted header |
| CardLaws.FoldersDoNotStray | src/fs/va.c:302-376 | A path through folders ends at no planted header |
| Stray.Strayed | src/fs/va.c:346-367 | A well-formed disk with one EF, on which SELECT with P1 = 08 and the path 0001 0002 is answered 9000 and makes a header spelled by the data of the EF the current file |
| CardLaws.Ran | src/apduh.c:1435-1515 | So does every run of commands in which no SELECT strays |
| RecordLaws.AllOrNothing | src/apduh.c:568-1289 | READ BINARY, READ RECORD and UPDATE RECORD succeed or leave the disk and the validity area as they were; only UPDATE RECORD writes |
| RecordLaws.BinaryExact | src/apduh.c:604-741 | READ BINARY, after any procedure byte and with any data, succeeds if and only if it comes without data after one, and the range that P1, P2 and P3 mean begins inside a transparent EF and ends in it; it then returns exactly that part of the file's data |
| RecordLaws.ReadSucceeds | src/apduh.c:897-1018 | READ RECORD succeeds if and only if P1 and P2 mean a record that exists and its length is asked for, and then returns that slice of the file's data |
| RecordLaws.UpdateSucceeds | src/apduh.c:1134-1289 | UPDATE RECORD succeeds if and only if the record exists and exactly its length of data is given |
| RecordLaws.RecordBecomesCurrent | src/apduh.c:984-1010 | After success an existing record is current; exactly when it is the one that was addressed |
| RecordLaws.UpdateExact | src/apduh.c:1160-1281 | A successful update puts the data into the record; every other byte of every tree is unchanged; headers and tables still agree |
| RecordLaws.UpdateSparesFiles | src/apduh.c:1160-1281 | The data of every other EF on the card is unchanged |
| RecordLaws.UpdateSparesRecords | src/apduh.c:1160-1281 | Every other record of the same file is unchanged |
| RecordLaws.UpdateThenRead | src/apduh.c:930-1010 | READ RECORD with the same P1 and P2 after an update returns the bytes written |
| RecordLaws.DfStays | src/fs/va.c:68-94 | Addressing an EF keeps the current DF if and only if no short identifier was used or the EF is directly in that DF |
| RecordLaws.ReadMovesDf | src/apduh.c:984-1010 | So it is after READ RECORD and UPDATE RECORD |
| RecordLaws.BinaryMovesDf | src/apduh.c:604-741 | So it is after READ BINARY |
| RecordLaws.RecordAlone | src/apduh.c:847-870 | A P2 that means several records has the effect and the answer of the P2 that means the record P1 alone |
| ResponseLaws.SelectExact | src/apduh.c:218-551 | For any supported method: when SELECT succeeds, answers with a template or with 6F00, and that it changes the selection whenever it selects something |
| ResponseLaws.SelectIdExact | src/apduh.c:218-260 | SELECT by identifier is answered 6A82 if and only if no file has it; else the last file that has it is current |
| SelectLaws.ByIdExactly | src/fs/va.c:255-266 | An ID means the last file with it in the last tree that has one, and nothing if and only if it is zero or no file has it |
| SelectLaws.ByAidExactly | src/fs/va.c:118-156 | Bytes mean the application of the first tree after the MF's whose AID begins with all of them, byte for byte, and none if and only if there is no such tree |
| SelectLaws.ByNameIsExactly | src/fs/va.c:158-253 | A name means the first MF or DF of the second tree whose name begins with its first byte and zeros, and none if and only if there is none |
| SelectLaws.FoldExactly | src/fs/va.c:346-367 | A path leads to a file if and only if there is a route of its length, each step of which stays for the folder's own ID and else goes to the first file directly in it that has the ID |
| SelectLaws.PathExactly | src/fs/va.c:302-376 | Where a path ends for P1 = 08 (from the MF, or from the current application after 7FFF) and P1 = 09 (from the current DF) |
| SelectLaws.SelectAnswers | src/apduh.c:28-560 | Every answer of SELECT, but along paths through an EF, by what its parameters and data mean: the status of each refusal; on success every field of the validity area, and 9000, 6F00, or 61 and the octets of the template that P2 asks for |
| SelectLaws.SomeChoice | src/apduh.c:218-551 | They always mean one file or one refusal |
| SelectLaws.ResetSelects | src/fs/va.c:102-116 | A reset selects the last file with ID 3F00 on a cleared validity area, if and only if there is one |
| ResponseLaws.SelectQueues | src/apduh.c:529-551 | What SELECT announces is the length of the template of the file that is now current, and the template is what is queued |
| ResponseLaws.FetchExact | src/apduh.c:1341-1383 | GET RESPONSE with P3 > 0 returns the next bytes and reports how many remain, or changes nothing when more is asked for |
| ResponseLaws.NoFetch | src/apduh.c:1297-1338 | Any other GET RESPONSE, with other P1 or P2, data, P3 = 0 or as a first call, hands out nothing and changes nothing; with the status for each |
| ResponseLaws.GetExact | src/apduh.c:1297-1385 | Of any GET RESPONSE: what is handed out and what is left are what was left before, and a status that announces bytes announces exactly what is left |
| ResponseLaws.NormalTells | src/apduh.c:1331-1383 | When 9000 is answered; it tells that nothing is left if and only if P3 > 0 or nothing was there |
| ResponseLaws.FetchedAll | src/apduh.c:1341-1383 | Over any GET RESPONSE commands the pieces follow each other without gap or overlap |
| ResponseLaws.SelectThenFetch | src/apduh.c:529-551 | After SELECT, what any GET RESPONSE commands fetch is a prefix of the template, and once nothing is left it is all of it and decodes to it |
| ResponseLaws.ResumeExactly | src/apduh.c:1451-1455 | After any command that is no GET RESPONSE, a fetch fails and changes nothing if and only if it asks for more than the command announced, or than was there before a command of another class |
| ResponseLaws.NothingToResume | src/apduh.c:1451-1455 | After any other interindustry command nothing can be fetched and trying changes nothing |
| ResponseLaws.AnswersSend | src/apdu.c:80-176 | Every built-in answer can be sent in 258 bytes, and data is asked for at most once |
| BufferLaws.BufferLeaks | src/apduh.c:1228-1235 | UPDATE RECORD with data of another length than the record has is answered with the beginning of the response buffer, as long as the record, before 6702 |
| BufferLaws.HiddenExactly | src/apduh.c:1435-1515 | For any two contents of the response buffer the same is sent and the card is left the same, if and only if the command is no such UPDATE RECORD |
| Pps.Check | src/common.c:14-22 | The check byte is the exclusive or of all bytes |
| Pps.CkConcat | src/common.c:14-22 | The check of a concatenation is the exclusive or of the checks |
| Pps.CkZero | src/common.c:14-22 | Bytes check to zero if and only if every bit is set in an even number of them |
| Pps.ParseReq | src/pps.c:23-99 | The loop over PPS1 to PPS3 accepts and reads exactly the requests the function says |
| Pps.Deparse | src/pps.c:101-154 | The response built step by step, at most one byte longer than the room given |
| Pps.Negotiate | src/pps.c:156-178 | Parsing, answering and comparing |
| Pps.ExchangeExactly | src/pps.c:4-178 | An exchange succeeds if and only if the request is well-formed, as long as it says, checks to zero and does not propose default values, with room for it; the response is then the request |
| Pps.AcceptableExactly | src/pps.c:4-178 | Which requests are agreed to, by their bytes and bits alone |
| Pps.ResponseChecks | src/pps.c:101-154 | Every response checks to zero and is as long as its PPS0 says |
| FsmLaws.StepBounded | src/fsm.c:6-538 | In every state and for every input the buffers keep their bounds |
| FsmLaws.RunBounded | src/fsm.c:6-538 | So they do in every run, from any state within bounds |
| FsmLaws.StepFitsExactly | src/fsm.c:6-538 | In every state and for every input more is sent than there is room for if and only if a well-formed PPS request meets room for all of its response but the check byte, or an answer that becomes a status word meets room for less than two bytes |
| FsmLaws.RunFitsExactly | src/fsm.c:6-538 | In a run everything sent fits if and only if no call of it is one of those |
| FsmLaws.RunRoomy | src/fsm.c:6-538 | With room for the longest PPS response in every call, everything fits |
| FsmLaws.PpsOverruns | src/pps.c:138-152 | The request FF 00 FF with room for two bytes is answered with three |
| FsmLaws.StatusOverruns | src/fsm.c:440-456 | A plain 9000 with room for one byte is answered with 6F00 |
| FsmLaws.RunAsked | src/fsm.c:171-384 | Under an interface that never sends more than was asked for, no run reaches the branch marked unreachable |
| FsmLaws.HeaderInPieces | src/fsm.c:296-384 | However the bytes of a header are split up, the card ends up as if they had come at once |
| FeedLaws.ColdStart | src/fsm.c:6-105 | Contacts 5056, 7076, 707E and 707E one after the other make the card send its answer to reset and ask for one byte |
| FeedLaws.OtherContacts | src/fsm.c:6-538 | Where any other contacts lead in every state; in a session they put the card off |
| FeedLaws.SessionEnds | src/fsm.c:76-222 | With good contacts: what an answer to reset that does not fit, a first byte and too long a PPS request lead to |
| FeedLaws.HeaderAsks | src/fsm.c:296-384 | While a header is incomplete exactly what is missing of it is asked for; a whole one is taken field by field, and a longer one is dropped |
| FeedLaws.AnswerAsks | src/fsm.c:387-470 | After a command 5 bytes are asked for, after a procedure byte as many as the handler said; at most four procedures are sent |
| FeedLaws.DataTaken | src/fsm.c:472-520 | Data goes behind what was received, up to 256 bytes |
| FeedLaws.HeaderFed | src/fsm.c:296-384 | An interface that sends exactly what is asked for completes a header within two calls and loses no byte behind it |
| FeedLaws.FirstFed | src/fsm.c:108-384 | Right after the answer to reset within three calls |
| FeedLaws.PpsFed | src/fsm.c:108-293 | A PPS request of the length its PPS0 says within four |
| FeedLaws.PpsAnswered | src/fsm.c:171-293 | What any whole PPS request is answered with, byte by byte, and the state after that |
| FeedLaws.DataFed | src/fsm.c:387-520 | The handler is called again with exactly as much data as it asked for |
| FsmLaws.FirstByte | src/fsm.c:108-148 | The byte after the answer to reset is the first of the header if and only if nothing was processed since the last reset |
| FsmLaws.CleanLasts | src/common.c:72-93 | Within a session nothing is left over before the first command, and a warm reset is never entered |
| FsmLaws.PpsInPieces | src/fsm.c:171-222 | However a PPS request is split up, it is collected whole and answered as a whole |
| FsmLaws.PpsAgreed | src/fsm.c:171-293 | Commands follow if and only if a whole acceptable request was collected, and it was then sent back byte for byte |
| FsmLaws.Progress | src/fsm.c:387-520 | Every call with good contacts ends a command or brings its end nearer |
| FsmLaws.CommandEnds | src/fsm.c:387-520 | For any handler and any input the card waits for a command again after at most nine calls |
| FsmLaws.DataInPieces | src/fsm.c:472-520 | While the handler asks for more it is called with the same header and all the data so far, in order |
| Fsm.Icc.Call | src/fsm.c:522-538 | The state machine on its buffers does what one step of the specification says |
| Fsm.Icc.HandleCmdWait | src/fsm.c:296-384 | Appends to the header in place, or drops what the previous command left |
| Fsm.Icc.HandlePpsReq | src/fsm.c:171-293 | Collects and answers a PPS request in place |
| Fsm.Icc.HandleCmdProcedure | src/fsm.c:387-470 | Calls the handler and sends its answer, a procedure byte or a status word for an answer that cannot be sent |
| CardMachine.RunKeeps | src/fsm.c:522-538 | Whatever the interface does, the disk stays well-formed and indexed and the validity area consistent, unless it has a SELECT handled that strays |
| CardMachine.StepKeepsExactly | src/fsm.c:522-538 | One call breaks this if and only if it hands a SELECT to the handlers that ends at a planted header |
| CardMachine.CommandServed | src/fsm.c:296-520 | However the header is split up, what is sent in the end is the handlers' answer to header and data, and the card is idle again within three calls |
| CardMachine.CommandFed | src/fsm.c:296-520 | Under an interface that sends exactly what is asked for, after at most five calls the handlers' answer to header and data was sent, no byte of the next command was taken, and that is asked for |
| CardMachine.WrittenIsRead | src/fsm.c:296-520 | A terminal that gets 9000 for UPDATE RECORD gets back the bytes it sent from READ RECORD, whatever pieces the headers come in |
| CardMachine.SelectedIsFetched | src/fsm.c:296-520 | A terminal that selects a file and is told the length of its template reads it with GET RESPONSE commands, whatever pieces the headers come in; once nothing is left it has the template of the file that is current |
| CardMachine.DataWhole | src/apduh.c:76-85 | The data of SELECT and UPDATE RECORD is refused for its length if and only if the first piece is not all of it, and nothing is changed then |
| Startup.Start | src/common.c:72-93 | From well-formed tree buffers to tables, selection of the MF and a card on which all laws hold |

## Left out

- Sockets, signals, the client loop, the dummy server, file handles: input and output. A disk file is a byte sequence.
- JSON and leaf text (hexadecimal, ASCII, numbers): items start as an abstract tree whose leaves are byte sequences; a null value is an empty one.
- Failing allocation, and growing the buffer and trying again in `disk_json_prs`: the buffer is as large as it has to be, and an item that is too long is reported as such.
- An empty `contents` array of a folder is taken to succeed, as test/data/disk/002-in.json expects; the code leaves the return value unset there.
- `swicc_va_select_data_offset`, occurrence selection and commands on record identifiers: unfinished in the repository. RESET_WARM is modelled as it is and proved not to be entered.
- Proprietary and override handlers: absent in `Apduh`, an arbitrary function in `FsmSpec`.
- The contact states the card asks for, transmission parameters and the ETU that follow a PPS exchange: PPS1 is assumed not to name reserved values, for which the code stops.
- Null-pointer checks of parameters; `swicc_fs_disk_mount`; the contents of the answer to reset, which is a parameter.
- The list of trees is a sequence and not a linked list; tree iterators are indices, and a disk has 1 to 256 trees.
- The byte order of the machine is little-endian.
- Reads outside a buffer are not modelled: a header that ends behind its buffer does not parse (`FsFormat.FilePrs`) or leaves a walk without outcome (`PathBytes.Outside`), and the BER-TLV header parser has the result `Overrun` for it.
- BerTlvEncoder.TagField: tag numbers above 30 whose low 14 bits are all zero are excluded, because the loop bound of the code wraps around for them.
- FsmLaws.HeaderInPieces: the interface is taken not to send more bytes than the header has left, as the card asks.
- DiskWalk.FileForeach: the walk starts at a folder, or at a file at which the callback stops it. From any other file the code reads data as headers; only SELECT by path does so, and `FileSys.SearchFile` models that.
- FileSys.FileSystem.SelectByPath: paths on which the walk over the data of an EF reads behind the end of the buffer or goes on for ever are excluded, because the code has no outcome for them (`PathBytes.Seen.Undefined`); no path through folders is one of them.
- FileSys.SearchFile: the same exclusion.
- SelectLaws.SelectAnswers: paths that step on from an EF are excluded; `PathBytes` says where those lead.
- Apduh.Handlers.SelectFile: the same exclusion, as `ApduhSpec.CmdDefined`.
- Apduh.Handlers.Dispatch: the same.
- CardLaws.CommandKeepsExactly: the same.
- CardMachine.StepKeepsExactly: the same.
- FileSys.FileSystem.SelectDfName: names are 1 to 16 bytes long, which is all SELECT passes on.
- Fsm.Icc.Call: the handler is a function on the rest of the card; `Apduh.Handlers.Dispatch` is proved equal to the function `CardMachine` uses, but the object is not wired to the state machine object.
- The command data that SELECT by path converts to host byte order in place: converted into a sequence of its own.
- CardLaws.Ran: what happens on a card after a SELECT that strayed is not modelled; `CommandKeepsExactly` says which commands those are.
- CardMachine.RunKeeps: the same.
- CardMachine.CommandServed: the same.
- CardMachine.CommandFed: the same.
- BerTlv.TagNumberSurvives: of tag numbers above 30 whose low 14 bits are all zero nothing is said, as for `TagField`.
