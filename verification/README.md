# libexif: a verified model

libexif turns the EXIF block of a photograph into entries in five directories and back. This project
models the parts of it that have to agree with one another and proves that they do:

- **The file codec** (`exif-data.c`). `ExifLayout.FileOf` says, block by block, which bytes a saved object
  consists of; `ExifLoad.LoadFile` says what loading any bytes leaves behind. The class
  `ExifDataObject.ExifData` grows and patches one buffer as the C does, sorts each directory's records,
  walks offsets with the `used` flags and the cost guard, and is proved to do exactly what those two
  say. About the two: a saved file loads back, its layout is tight and even, saving what was loaded
  reaches a fixed point, and a load of hostile bytes stays bounded and stores only pieces of its input.
- **The maker notes** (Canon, Fuji, Olympus/Nikon/Sanyo/Epson, Pentax/Casio). One relocatable directory
  codec with thirteen variants, `MakerNote.Saved` and `MakerNote.Load`, and the class
  `MakerNoteObject.MnoteData` that saves and loads with the C's loops. Notes survive relocation, and they
  survive inside a file.
- **The streaming loader** (`exif-loader.c`). `Loader.Run` is an automaton that eats a byte at a time; the
  class `LoaderObject.ExifLoader` works on chunks, a 12-byte window and a collecting buffer, and is proved
  equal to it. Cutting a stream differently changes nothing, and the EXIF segment of a JPEG stream is found.
- **Repair** (`exif-entry.c`, `exif-content.c`, `exif-tag.c`). Repairs of one entry, a directory, all of
  them; the removal loop that skips elements; table search against linear scans.
- **Byte orders, Canon's flat index, UTF-16** (`exif-utils.c` and the note handlers).

## How it is laid out

| files | what is in them |
|---|---|
| `Bytes`, `Tiff`, `TiffWriter`, `RecordSort` | integers in both byte orders, blocks inside blocks, 12-byte records, sorting |
| `ExifTypes`, `TagTable` | entries, directories, and the tag table |
| `ExifLayout`, `ExifEffects`, `ExifSorted`, `ExifPositions`, `ExifBytes` | the saved file, its order, its positions and its very bytes |
| `ExifLoad`, `ExifWalk`, `ExifDirectories`, `ExifLoadMeaning`, `ExifLoadComplete`, `ExifCost` | loading, of saved files and of any bytes |
| `ExifRoundTrip`, `ExifTheorems`, `ExifEmbedding`, `ExifNoteFile`, `ExifNoteCanonical` | the main results on whole files, without and with a maker note |
| `ExifDataClass`, `ExifEndToEnd`, `ExifPassing` | the object that saves and loads; loading with repairs; from one object to another |
| `MakerNote`, `MakerNoteRoundTrip`, `MakerNoteForeign`, `MakerNoteBytes`, `MakerNoteOrder`, `MakerNoteClass` | the maker notes, those the library has saved and those it has not |
| `Loader`, `LoaderJpeg`, `LoaderRaw`, `LoaderClass`, `JpegFile`, `JpegBuffer` | the streaming loader and the search of a buffer, up to a file inside a JPEG image or a Fuji raw file |
| `EntryFix`, `ContentFix`, `RepairClass` | repair |
| `ByteOrderSwitch`, `Utf16` | conversions |

The C's buffers are sequences of bytes, its `NULL` data is an empty sequence, and integers are unbounded with
`% U16` and `% U32` where the C stores, reads or adds in fewer bits. A buffer that `realloc` has just grown holds
unknown bytes (`Bytes.Realloc`), so a proof that a saved file is determined shows that each of them is written.
`ExifNoteFile.ConditionsCanBeMet` shows a file that meets all the conditions of the results on files with a note.

## What turned out false

Some things one would expect do not hold of the code. The model keeps the code as it is; each of these has a
lemma at an input that shows it, and where the code does meet the expectation a lemma that says exactly when.

- A maker note whose entry is not of a one-byte format is saved under its old format, with the component count of the
  new one: the record's format is written before it is corrected (`ExifEmbedding.UncorrectedFormatIsLost`, and
  `UncorrectedExample` for an entry of SHORT format). With a one-byte format it comes back
  (`ExifNoteFile.NotedRoundTrip`).
- A NikonV0 note is saved with a version byte that no loader recognises (`MakerNoteRoundTrip.NikonV0IsLost`, and
  `NikonV0Example` for an empty note).
- The streaming loader can collect something else than the EXIF segment of an image. At an APP1 marker it compares as
  much of the EXIF header as its window still holds, so an APP1 segment of another kind can pass for it
  (`LoaderJpeg.TakenCollected`, and `OtherApp1Collected` for a stream); and behind ten or more fill bytes a first segment
  can pass for bare EXIF data (`LoaderJpeg.BareCollected`, and `BareExample`). `LoaderJpeg.JpegScan` says exactly when
  neither happens, by the markers, lengths and payloads of the segments alone.
- A directory that keeps an entry with tag 0 gets none of its missing mandatory tags: new entries are added under
  tag 0, which is then taken (`ContentFix.MandatoryMissing`; `ContentFix.MandatoryExactly` says when all are there).
- A user comment of an unknown format gets a known one but keeps its component count, so it can end up with fewer
  bytes than components (`EntryFix.SizeLostExample`; `EntryFix.FixKeepsSize` says when not).
- The bytes a conversion to UTF-8 writes for half of a surrogate pair are not UTF-8 (`Utf16.SurrogateExample`;
  `Utf16.EncodeIsUtf8` for all units).

## Model

| member | source | states |
|---|---|---|
| `ExifTheorems.PlainRoundTrip` | libexif/exif-data.c:871-1100 | Without a maker note, or with one that is not to be changed: loading a saved file, whatever follows it and whatever byte order the object had, gives back byte order, thumbnail and the entries of all five directories in tag order. |
| `ExifTheorems.RoundTrip` | libexif/exif-data.c:871-1100 | The same with a maker note serialised on the way: what comes back is what each entry was saved as. |
| `ExifRoundTrip.LoadSaved` | libexif/exif-data.c:413-563 | The whole state a load of a saved file leaves: contents, flags, thumbnail, the note's offset and the walks made; no branch gives up. |
| `ExifTheorems.Canonical` | libexif/exif-data.c:588-798 | Saving what was loaded reaches a fixed point after one round, of the same length, and at once if the entries were in tag order. |
| `ExifNoteCanonical.NotedCanonical` | libexif/exif-data.c:246-301 | The same for a file with an interpreted note that is loaded and saved along with it, although sorting can move the note and its bytes depend on where it lies. |
| `ExifNoteCanonical.FilesAlike` | libexif/exif-data.c:246-335 | The saved file does not depend on what the note's entry held or on the offset the note was told last. |
| `ExifTheorems.FileLength` | libexif/exif-data.c:637-648 | The file is 14 bytes, 6 + 12 per record for each directory there is, its values over four bytes padded to even size, and the thumbnail. |
| `ExifPositions.FileParts` | libexif/exif-data.c:588-798 | Header, the five sections and the thumbnail tile the file: each lies where the one before it ends. |
| `ExifTheorems.EvenStart` | libexif/exif-data.c:297-335 | Every directory and every value area starts at an even offset. |
| `ExifTheorems.EvenValue` | libexif/exif-data.c:297-335 | So does every value outside its record. |
| `ExifTheorems.TagsOfDirectory` | libexif/exif-data.c:780-783 | Read back from the bytes, a directory's tags ascend strictly and are those of its entries and pointers, none lost or doubled. |
| `ExifTheorems.PointersResolve` | libexif/exif-data.c:671-778 | Every pointer found in a saved directory leads to the start of the directory or thumbnail it names, and the thumbnail's length is its length. |
| `ExifTheorems.LinkResolves` | libexif/exif-data.c:785-797 | Read back from the bytes, the link behind IFD 0 leads to the start of IFD 1 if that is written; every other link is zero. |
| `ExifBytes.HeaderBytes` | libexif/exif-data.c:1057-1100 | The fourteen bytes a file starts with, in either byte order. |
| `ExifBytes.SampleFile` | libexif/exif-data.c:588-798 | A whole file, byte by byte, with entries in three directories, pointers to the others and a thumbnail. |
| `ExifBytes.PayloadExactly` | libexif/exif-data.c:246-335 | The bytes written for a value: all of them up to 65536 components, and none beyond. |
| `ExifTheorems.SameLength` | libexif/exif-data.c:588-798 | Sorting the entries first does not change the size of the file, if no note is written anew. |
| `ExifSorted.SortedStrictly` | libexif/exif-data.c:565-586 | Records with distinct tags end up in strictly ascending order. |
| `ExifSorted.KeptSorted` | libexif/exif-data.c:780-783 | Sorting records and sorting entries commute: pointers dropped from the sorted directory leave the sorted entries. |
| `RecordSort.QSort` | libexif/exif-data.c:565-586 | Sorting 12-byte records in the buffer permutes them into ascending tag order. |
| `RecordSort.SortedUnique` | libexif/exif-data.c:565-586 | With distinct tags there is only one such permutation, so an unstable sort is as good as any. |
| `RecordSort.SortedRecords` | libexif/exif-data.c:780-783 | Any such permutation of a directory's bytes is the sorted directory. |
| `ExifEmbedding.Embedding` | libexif/exif-data.c:266-301 | The offset the loader records for the maker note is the one the note was told before it was serialised, and its bytes lie exactly there. |
| `ExifEmbedding.NoteRoundTrip` | libexif/exif-data.c:854-864 | File and note compose: loading the file, then the note from it at the recorded offset, gives the note that was saved. |
| `ExifNoteFile.NotedRoundTrip` | libexif/exif-data.c:816-1100 | The same under conditions that can be checked before saving: every entry comes back, the note's own holding the note's bytes, and a new handler, told the file's order and the recorded offset, reads the note that was saved. |
| `ExifNoteFile.NotedStreamRoundTrip` | libexif/exif-loader.c:169-358 | And so it does when the file has gone through a JPEG stream, cut in any way. |
| `ExifNoteFile.NotedSavable` | libexif/exif-data.c:246-335 | Those conditions, on the model alone, imply the ones on what the entries are saved as. |
| `ExifNoteFile.ImageLength` | libexif/olympus/exif-mnote-data-olympus.c:99-236 | A note takes as many bytes wherever it is told to lie. |
| `ExifEmbedding.UncorrectedFormatIsLost` | libexif/exif-data.c:246-301 | A record of a note entry whose format is not a one-byte one never reads back as what was saved. |
| `ExifEmbedding.UncorrectedExample` | libexif/exif-data.c:246-301 | Such a record: a note of six bytes reads back as six shorts. |
| `ExifLoadComplete.LoadedMeaning` | libexif/exif-data.c:871-1055 | A load of any bytes into a fresh object: in every directory tags are distinct and never special, and each entry's size is format size times components and positive and its data are a piece of those bytes. A directory that was walked holds, of as many records as its count field says, up to the one that ends the walk, the entry of the first well-formed record with each tag, none missing and nothing else; one that was not walked is empty. The thumbnail is a piece of those bytes. |
| `ExifLoadComplete.LoadIsComplete` | libexif/exif-data.c:361-387 | Such a load walks what there is to walk: IFD 0 and IFD 1 exactly when header and link lead to them, each walk goes on to its last record or to the first that ends it, every pointer met on the way marks its directory, and a marked directory was walked unless the guard or the end of the data refused it. |
| `ExifLoadComplete.ContentDone` | libexif/exif-data.c:413-563 | Loading a directory, in any state that keeps the load invariant, does all of that for it and everything below it; it is walked exactly when the guard lets it and its count lies inside the data. |
| `ExifLoadMeaning.LoadIsSound` | libexif/exif-data.c:871-1055 | Any bytes whatever, loaded into a fresh object, leave it fresh if they hold no EXIF block, and else in a state that keeps the load invariant for that block. |
| `ExifLoadMeaning.ContentSound` | libexif/exif-data.c:413-563 | Walking a directory keeps that invariant and touches only that directory and those whose flag it sets. |
| `ExifLoadComplete.LoadMeaning` | libexif/exif-data.c:413-563 | What the invariant means once a load is over: a walked directory is exactly the gathering of its own records, from its one place on, up to the end of its walk, another one is empty, and the thumbnail is a piece of the block. |
| `ExifLoadMeaning.GatherMeaning` | libexif/exif-content.c:140-166 | Gathering stores for every tag the first well-formed record with it, and nothing else. |
| `ExifLoadMeaning.EntryMeaning` | libexif/exif-data.c:165-244 | A stored entry has the fields of its record, size = format size times components and positive, and data that are a slice of the input at the inline or the offset position. |
| `ExifLoadMeaning.WorkBound` | libexif/exif-data.c:361-387 | No directory is walked twice, and at most 27300 records are looked at in one load. |
| `ExifLoadMeaning.Ancestry` | libexif/exif-data.c:484-505 | Every directory that is walked is at the end of a chain that starts with IFD 0 where the header says or IFD 1 where the link behind IFD 0 says, and in which each directory is entered from a record, with its pointer, of the one before; each has as many records as its count field says, as far as the data reach. |
| `ExifLoadMeaning.GuardBound` | libexif/exif-data.c:431-446 | Along any such chain the record counts of the directories above the last one multiply to at most 1.1^170. |
| `ExifLoadMeaning.LoadWork` | libexif/exif-data.c:361-446 | All of this for a load of any bytes into a fresh object: at most five walks of distinct directories, of the numbers of records in their count fields, at most 27300 in all, and a chain with that bound above each. |
| `ExifLoadMeaning.LoadKeepsHeld` | libexif/exif-data.c:361-387 | Whatever bytes are loaded into whatever object, a sub-directory that had entries before has the same ones afterwards. |
| `ExifBytes.EntryExactly` | libexif/exif-data.c:165-244 | A record gives an entry exactly when its format is known, it has components but not too many, and its value lies inside the data. |
| `ExifBytes.FinishedExactly` | libexif/exif-data.c:997-1042 | A load gets as far as the note exactly when the byte order is declared, the header is right, and IFD 0 with its link lies inside the data. |
| `ExifBytes.BogusPointer` | libexif/exif-data.c:470-483 | A special record that leads outside the data ends the walk of a directory below another, and is passed over at the top. |
| `ExifBytes.UnknownIgnored` | libexif/exif-data.c:524-549 | Where unknown tags are to be ignored every entry of a walk has a name in its directory. |
| `ExifCost.LevelCostLeast` | libexif/exif-data.c:389-401 | The cost of n entries is the least k with 1.1^k >= n + 0.1. |
| `ExifCost.CostBoundsProduct` | libexif/exif-data.c:389-446 | A chain of directories with cost c has a product of record counts of at most 1.1^c. |
| `ExifRoundTrip.GuardPasses` | libexif/exif-data.c:431-446 | The guard never stops the load of a saved file: its chains cost at most 168. |
| `ExifCost.PairCost` | libexif/exif-data.c:389-446 | Two directories of at most 5460 records together cost at most 168. |
| `ExifDataObject.ExifData.SaveData` | libexif/exif-data.c:1057-1100 | The bytes written are the specified file, and entries and note are left as saving makes them. |
| `ExifDataObject.ExifData.SaveContent` | libexif/exif-data.c:588-798 | A directory and all below it are appended, with pointers, values, thumbnail and link to IFD 1 in place; nothing before it changes. |
| `ExifDataObject.ExifData.SaveRecords` | libexif/exif-data.c:637-783 | The directory's records are written sorted, values and sub-directories follow, and only the link is missing. |
| `ExifDataObject.ExifData.SaveExtras` | libexif/exif-data.c:671-778 | The pointer and thumbnail records go behind the entries', and what they point to goes to the end. |
| `ExifDataObject.ExifData.SaveThumbnail` | libexif/exif-data.c:734-775 | The thumbnail is appended, and its two records say where it is and how long. |
| `ExifDataObject.ExifData.SaveEntries` | libexif/exif-data.c:655-669 | The loop writes all records and appends their values, for each entry as the note's serialisation leaves it. |
| `ExifDataObject.ExifData.SaveEntry` | libexif/exif-data.c:246-335 | One record: out-of-line values go to the end, padded to even size, short ones into the record; a maker note is serialised there and then. |
| `ExifDataObject.SortDirectory` | libexif/exif-data.c:780-783 | Sorting in the middle of the buffer yields the sorted directory and leaves the rest alone. |
| `ExifDataObject.FileIsTree` | libexif/exif-data.c:588-798 | The recursion's order of writing and the flat list of sections are the same file. |
| `ExifEndToEnd.SavableIsDetermined` | libexif/exif-data.c:246-335 | What meets the round trip's conditions is written in full: no byte is left to what the allocator returned. |
| `ExifDataObject.ExifData.LoadData` | libexif/exif-data.c:871-1055 | The object after a load is the one specified; a recognised note is loaded from the whole block at the recorded offset, and without a note entry or after giving up the old note is as it was. |
| `ExifDataObject.ExifData.LoadContent` | libexif/exif-data.c:413-563 | The loop over records, recursion included, computes the specified state; it ends because flags only get set. |
| `ExifDataObject.ExifData.LoadRecord` | libexif/exif-data.c:466-562 | One turn of that loop: pointer, thumbnail half, ordinary or unknown tag. |
| `ExifDataObject.ExifData.LoadSpecial` | libexif/exif-data.c:470-523 | A pointer is followed unless its directory is the one being walked, has entries or has its flag set; the thumbnail is read once both halves are known. |
| `ExifDataObject.ExifData.LoadEntry` | libexif/exif-data.c:165-244 | The bounds checks accept exactly the entries the specification reads. |
| `ExifDataObject.ExifData.LoadThumbnail` | libexif/exif-data.c:337-359 | The thumbnail is copied when it lies inside the data and only then. |
| `ExifDataObject.ExifData.AddEntry` | libexif/exif-content.c:140-166 | An entry is appended unless its tag is there. |
| `ExifDataObject.ExifData.InterpretMakerNote` | libexif/exif-data.c:816-865 | A handler is told order and offset and given the block, only when there is a maker-note entry. |
| `ExifDataObject.FindExif` | libexif/exif-data.c:887-984 | The search for the EXIF block in a buffer gives the specified piece of it, or none. |
| `JpegBuffer.BlockFound` | libexif/exif-data.c:887-984 | In an image whose application segments before it do not start with the EXIF header, the segment that does is found, exactly as long as it says, whatever its fill bytes and whatever follows. |
| `JpegBuffer.ShortBlock` | libexif/exif-data.c:945-984 | One of less than 14 bytes is not loaded. |
| `JpegBuffer.OtherMarkerGivesUp` | libexif/exif-data.c:927-944 | A marker of another kind before it ends the search. |
| `JpegBuffer.ImageRoundTrip` | libexif/exif-data.c:871-1100 | A saved file in a JPEG image, behind other application segments and in front of anything, loads back from the whole image. |
| `ExifDataObject.ExifData.SetByteOrder` | libexif/exif-data.c:1227-1258 | Every entry of every directory and the note are switched, and nothing if the order is the same. |
| `ExifDataObject.DataKeepsMeaning` | libexif/exif-data.c:1227-1258 | Each component of each entry reads under the new order as it did under the old one. |
| `ExifDataObject.ContentsAlike` | libexif/exif-data.c:1227-1258 | That for every entry of all five directories. |
| `ExifDataObject.DataBack` | libexif/exif-data.c:1227-1258 | Switching an entry back restores it. |
| `ExifEndToEnd.LoadThenRepair` | libexif/exif-data.c:1052-1055 | Whatever bytes are loaded, the repairs apply; afterwards every directory has distinct tags that belong there, and all mandatory ones unless tag 0 is in the way; a second repair changes nothing. |
| `ExifEndToEnd.LoadAndRepair` | libexif/exif-data.c:1044-1055 | A load that follows the specification leaves the repaired contents and the note as loaded, and plain contents and the old note where it gave up early. |
| `ExifPassing.Pass` | libexif/exif-data.c:871-1100 | Without a maker note, or with one that is not to be changed, what one object saves another loads: order, thumbnail and, in tag order, entries are those of the first. |
| `ExifPassing.PassWithNote` | libexif/exif-data.c:816-1100 | And the handler of the second ends up with the note of the first, at the offset where it lies in the file. |
| `MakerNoteRoundTrip.RoundTrip` | libexif/olympus/exif-mnote-data-olympus.c:99-515 | Saved for any offset and placed there among any bytes, a note of any variant but NikonV0 loads back as it was: version, order, and every entry. |
| `MakerNoteRoundTrip.NikonV0IsLost` | libexif/olympus/exif-mnote-data-olympus.c:589-619 | A saved NikonV0 note is never recognised, whatever its entries. |
| `MakerNoteRoundTrip.NikonV0Example` | libexif/olympus/exif-mnote-data-olympus.c:158-172 | Such a note. |
| `MakerNoteForeign.NikonV0Loads` | libexif/olympus/exif-mnote-data-olympus.c:392-400 | A NikonV0 note as a camera writes it, 27 entries in Motorola order without a header, loads in that order, whatever order the handler had. |
| `MakerNoteForeign.FixedOrderExactly` | libexif/olympus/exif-mnote-data-olympus.c:283-303 | A count of up to 255 entries read in the wrong order is seen to be wrong exactly when it is at least six. |
| `MakerNoteForeign.OtherOrderLoads` | libexif/olympus/exif-mnote-data-olympus.c:283-303 | So an Olympus, Sanyo or Epson note of the first version with six to 255 entries loads although its directory is in the other order than its header tells, |
| `MakerNoteForeign.OtherOrderNikonLoads` | libexif/olympus/exif-mnote-data-olympus.c:323-346 | and a Nikon note of the first version in the other order than the handler has. |
| `MakerNoteForeign.ToldOrderLoads` | libexif/olympus/exif-mnote-data-olympus.c:283-303 | A note of the first version in the order told loads as it is, whatever its size. |
| `MakerNoteForeign.NikonV2Loads` | libexif/olympus/exif-mnote-data-olympus.c:348-390 | A Nikon note of the second version loads in the order of its mark, from wherever its header says, counted from that mark; |
| `MakerNoteForeign.NikonV2Unmarked` | libexif/olympus/exif-mnote-data-olympus.c:348-390 | without a mark nothing of it is loaded. |
| `MakerNoteForeign.OlympusV2Unmarked` | libexif/olympus/exif-mnote-data-olympus.c:305-321 | An Olympus note of the second version without a mark loads in the order the handler was told. |
| `MakerNoteForeign.FujiLoads` | libexif/fuji/exif-mnote-data-fuji.c:156-268 | A Fuji note loads in Intel order from wherever its header says, counted from its start. |
| `MakerNoteRoundTrip.LocateSaved` | libexif/pentax/exif-mnote-data-pentax.c:231-276 | The header test of each loader finds its own saved note: entry count, tag base and pointer origin are those it was saved with. |
| `MakerNoteRoundTrip.EntriesReadBack` | libexif/fuji/exif-mnote-data-fuji.c:209-268 | The load loop reads each record of a saved note back as the entry that was saved. |
| `MakerNoteObject.MnoteData.Save` | libexif/pentax/exif-mnote-data-pentax.c:79-214 | The buffer and size a save hands out are the specified ones. |
| `MakerNoteObject.MnoteData.SaveEntries` | libexif/canon/exif-mnote-data-canon.c:147-191 | The save loop fills the zeroed records and appends the values, padded where the handler pads, with pointers counted from the handler's origin. |
| `MakerNoteObject.WriteHeader` | libexif/olympus/exif-mnote-data-olympus.c:111-188 | The header bytes of each variant, before the zeroed records. |
| `MakerNoteBytes.IntelHeaders` | libexif/olympus/exif-mnote-data-olympus.c:99-236 | The header of every variant, byte by byte, in Intel order, |
| `MakerNoteBytes.MotorolaHeaders` | libexif/olympus/exif-mnote-data-olympus.c:99-236 | and in Motorola order. |
| `MakerNoteBytes.RecordSaved` | libexif/pentax/exif-mnote-data-pentax.c:130-214 | Read back from the note, each record holds tag, format and count of its entry, and its value lies in it or where its pointer leads, counted from the origin of the variant. |
| `MakerNoteBytes.NoteLength` | libexif/fuji/exif-mnote-data-fuji.c:75-138 | The length of a note: header, count, records, footer, and the values of more than four bytes, padded for Canon and Fuji only. |
| `MakerNoteObject.MnoteData.Load` | libexif/canon/exif-mnote-data-canon.c:206-333 | A load leaves the specified note, from any bytes. |
| `MakerNoteObject.MnoteData.LocateOlympusNote` | libexif/olympus/exif-mnote-data-olympus.c:253-413 | The header tests and the fall back to the other byte order decide as specified. |
| `MakerNoteObject.MnoteData.LoadEntries` | libexif/canon/exif-mnote-data-canon.c:246-332 | The loop stores what parses, in order, and Canon's stops where the values become too many. |
| `MakerNoteObject.MnoteData.ParseEntry` | libexif/fuji/exif-mnote-data-fuji.c:211-265 | One record's checks: skipped, stored with data, or stored without; pointers are added in 32 bits where the source does. |
| `MakerNoteBytes.ParseExactly` | libexif/fuji/exif-mnote-data-fuji.c:211-265 | When a record is stored with data, stored without, passed over, or ends the load, family by family. |
| `MakerNoteBytes.CollectExactly` | libexif/canon/exif-mnote-data-canon.c:246-332 | The entries stored are, in order, those of the records before the first that ends the load, a record passed over ending nothing, and Canon's stop before the values become too many. |
| `MakerNoteBytes.TooManyEntries` | libexif/canon/exif-mnote-data-canon.c:236-245 | A directory with more entries than its family allows is not read. |
| `MakerNoteObject.MnoteData.SetByteOrder` | libexif/canon/exif-mnote-data-canon.c:98-116 | Every entry with enough data is switched and marked, as specified. |
| `MakerNoteOrder.EntryKeepsMeaning` | libexif/fuji/exif-mnote-data-fuji.c:317-335 | Each component of a note's entries reads as before under the order then recorded with it. |
| `MakerNoteOrder.NoteBack` | libexif/pentax/exif-mnote-data-pentax.c:403-421 | Switching a note to another order and back restores it. |
| `MakerNoteOrder.ShortOnesStay` | libexif/canon/exif-mnote-data-canon.c:98-116 | An entry with fewer bytes than its components take stays as it is, its recorded order too; all others record the new one. |
| `MakerNoteOrder.CountUnchanged` | libexif/canon/exif-mnote-data-canon.c:98-116 | Canon's flattened count survives a change of byte order, if entries are as a load leaves them. |
| `MakerNoteOrder.LoadConsistent` | libexif/canon/exif-mnote-data-canon.c:206-333 | A load of any bytes, of any family, stores entries in the note's order with data of the size they say, or leaves the old ones. |
| `MakerNoteOrder.LoadedSwitches` | libexif/canon/exif-mnote-data-canon.c:98-116 | Whatever is loaded into a new handler can be switched: count and meaning of every component stay, and switching back restores the note. |
| `MakerNoteOrder.GetTags` | libexif/canon/exif-mnote-data-canon.c:67-84 | An index below the count leads to the entry and sub-index it stands for, and any other to the number of entries. |
| `MakerNoteOrder.Count` | libexif/canon/exif-mnote-data-canon.c:335-344 | The count is the sum of the entries' counts. |
| `MakerNoteBytes.CountExactly` | libexif/canon/mnote-canon-entry.c:503-526 | An entry counts for its components, for one, or, with a settings tag, for half the bytes announced in its first short, as far as they are there. |
| `MakerNoteOrder.FlatIndexUnique` | libexif/canon/exif-mnote-data-canon.c:67-84 | Two indices are equal exactly when they stand for the same entry and sub-index. |
| `MakerNoteOrder.FlatIndexOnto` | libexif/canon/exif-mnote-data-canon.c:67-84 | Every entry and sub-index stands behind some index below the count. |
| `MakerNoteOrder.LoadBound` | libexif/canon/exif-mnote-data-canon.c:306-331 | No load stores more than a million values; a handler that has no more, a new one in particular, has no more afterwards. |
| `Loader.ChunkIndependence` | libexif/exif-loader.c:169-358 | However a stream is cut, down to single bytes and with empty chunks, the loader ends in the same state with the same answer. |
| `Loader.RunConcat` | libexif/exif-loader.c:169-358 | A write that wants more is continued by the next; after one that does not, more data in the same write would have changed nothing. |
| `Loader.FeedReachable` | libexif/exif-loader.c:246-350 | From every reachable state every byte leads to a reachable one: size bytes are read into clear bits, and at most 65535 bytes are collected. |
| `LoaderObject.ExifLoader.Write` | libexif/exif-loader.c:169-358 | A write of a chunk, with its window, skips and jumps back, equals feeding its bytes one by one. |
| `LoaderObject.ExifLoader.Pass` | libexif/exif-loader.c:174-357 | One turn from `begin` either ends the call as specified or goes on with a shorter rest and the same outcome. |
| `LoaderObject.ExifLoader.ScanWindow` | libexif/exif-loader.c:246-350 | The loop over the window, with its reprocessed byte, is the byte automaton. |
| `LoaderObject.ExifLoader.CopyData` | libexif/exif-loader.c:149-167 | Collecting stops at the announced size; a buffer is made when first needed. |
| `LoaderObject.ExifLoader.Reset` | libexif/exif-loader.c:421-432 | Back to the first state, without a buffer. |
| `LoaderJpeg.JpegScan` | libexif/exif-loader.c:180-318 | Behind any well-formed segments, other APP1 segments among them, the EXIF segment is collected, whatever it holds, if and only if no earlier APP1 segment agrees with the header in the bytes its window still holds and the first segment does not look like bare data; the places in the window follow from the segments' lengths. |
| `LoaderJpeg.ExifIsFound` | libexif/exif-loader.c:180-318 | In that case each segment is skipped by exactly its length, and what is collected starts with the EXIF segment's payload. |
| `LoaderJpeg.TakenCollected` | libexif/exif-loader.c:309-319 | Otherwise the first segment that passes for the EXIF segment is collected, with its own length and from its own payload on, |
| `LoaderJpeg.BareCollected` | libexif/exif-loader.c:224-244 | or the first segment is collected as bare data, its marker becoming part of the length. |
| `LoaderJpeg.BareExample` | libexif/exif-loader.c:224-244 | Streams for which that happens. |
| `LoaderJpeg.DecisionIsRight` | libexif/exif-loader.c:311-319 | A single comparison at an APP1 marker tells EXIF from other segments, for all streams, at the first four places of the window and at no other. |
| `LoaderJpeg.BareStream` | libexif/exif-loader.c:224-244 | Bare EXIF data behind two length bytes are collected as they are. |
| `LoaderJpeg.CorruptEnds` | libexif/exif-loader.c:337-348 | Behind segments that are passed over, a byte that is no marker makes the loader start afresh and ask for nothing more. |
| `LoaderRaw.RawFound` | libexif/exif-loader.c:224-307 | In a Fuji raw file the EXIF segment of the image is collected that lies where the four bytes at 84 say, if no segment before it is taken for it; |
| `LoaderRaw.RawTaken` | libexif/exif-loader.c:224-307 | if one is, the first such segment is collected instead. |
| `LoaderRaw.ImageAtOffset` | libexif/exif-loader.c:224-307 | Whatever lies between header and image, reading goes on right behind the SOI marker at the offset. |
| `LoaderJpeg.OtherApp1Collected` | libexif/exif-loader.c:311-319 | A stream in which another kind of APP1 segment is collected. |
| `JpegFile.StreamRoundTrip` | libexif/exif-loader.c:169-358 | A saved file (without a maker note, or with one that is not to be changed) put into a JPEG stream behind segments that the loader passes over, cut in any way and fed to it, loads back as it was saved. |
| `JpegFile.RawRoundTrip` | libexif/exif-loader.c:224-307 | The same for a saved file in the image of a Fuji raw file. |
| `EntryFix.ConversionKeeps` | libexif/exif-entry.c:206-275 | A conversion to shorts keeps each long modulo 2^16, each short and each byte. |
| `EntryFix.RewrittenIsSame` | libexif/exif-utils.c:178-216 | Rationals read as the one kind and written back as the other, one after the other, keep every byte, whatever their signs and the byte order. |
| `RepairObject.RewriteRationals` | libexif/exif-entry.c:302-311 | The loop that reads each component and rewrites it in place. |
| `EntryFix.RationalsKeep` | libexif/exif-entry.c:293-358 | So an entry whose format is changed between the two kinds has the data and the components it had. |
| `EntryFix.FormatExactly` | libexif/exif-entry.c:206-358 | The format after the repair, for every tag and every format before it; an entry that has what its tag must have stays as it is. |
| `EntryFix.RepairedTags` | libexif/exif-entry.c:206-358 | The tags that are repaired, by their numbers. |
| `EntryFix.CommentMeaning` | libexif/exif-entry.c:359-442 | A comment ends up with a legal code and keeps everything behind the code area, or all of the old text behind a new code. |
| `EntryFix.CommentExactly` | libexif/exif-entry.c:359-442 | The comment after the repair in every case: too short, starting with a zero byte, starting with eight blanks, with a code, and any other. |
| `EntryFix.CommentGrows` | libexif/exif-entry.c:359-442 | The whole repaired comment: undefined format, and as many more components as it has grown by, which is none or eight. |
| `EntryFix.CommentTwice` | libexif/exif-entry.c:359-442 | A repaired comment is left alone by a second repair. |
| `EntryFix.FixTwice` | libexif/exif-entry.c:206-442 | Repairing an entry twice is repairing it once. |
| `EntryFix.FixKeepsSize` | libexif/exif-entry.c:206-442 | The repaired entry has the data its format and count speak of exactly when a comment has at least a byte per component. |
| `EntryFix.SizeLostExample` | libexif/exif-entry.c:359-369 | A comment that ends up with fewer bytes than it claims. |
| `RepairObject.FixOne` | libexif/exif-entry.c:206-442 | The loops over components and over the comment's blanks compute the specified entry. |
| `RepairObject.FixComment` | libexif/exif-entry.c:359-442 | The comment after the loops over its blanks is the specified one. |
| `ContentFix.RemovedIsSurvivors` | libexif/exif-content.c:308-318 | Though every removal skips an entry, the passes end with exactly the entries that may stay, in their order. |
| `ContentFix.UnknownTypeKeepsAll` | libexif/exif-content.c:272-288 | With no data type known nothing is removed. |
| `ContentFix.AddMeaning` | libexif/exif-content.c:320-339 | Only initial values of mandatory tags are added, behind the others, and no tag twice. |
| `ContentFix.MandatoryExactly` | libexif/exif-content.c:320-339 | All mandatory tags are there afterwards exactly when none was missing before, or no entry with tag 0 was there to stay (and tag 0, if mandatory itself, was the only one missing). |
| `ContentFix.MandatoryMissing` | libexif/exif-content.c:320-339 | A directory that stays without a mandatory tag. |
| `ContentFix.FixedMeaning` | libexif/exif-content.c:290-340 | Nothing that is not recorded is left, survivors come first and in order, the rest are initial values, tags stay distinct. |
| `ContentFix.RecordedSurvive` | libexif/exif-content.c:272-318 | By the tag table: nothing that is not recorded is left, and every entry that is, or about which nothing is known, is there in its repaired form. |
| `ContentFix.FixedTwice` | libexif/exif-content.c:290-340 | Repairing a directory twice is repairing it once. |
| `RepairObject.ExifContent.SweepOnce` | libexif/exif-content.c:222-233 | One pass over a list that shrinks under it. |
| `RepairObject.ExifContent.RemoveNotRecorded` | libexif/exif-content.c:308-318 | The passes until nothing changes end, with the specified entries. |
| `RepairObject.ExifContent.RemoveEntry` | libexif/exif-content.c:168-206 | The entry is gone and the others keep their order. |
| `RepairObject.ExifContent.Fix` | libexif/exif-content.c:290-340 | The directory after repair, removal and addition is the specified one. |
| `RepairObject.FixData` | libexif/exif-data.c:1341-1373 | All five directories are repaired; IFD 1 is emptied when there is no thumbnail. |
| `RepairObject.ContentsExactly` | libexif/exif-data.c:1341-1373 | Each directory is repaired by its own rules, and IFD 1 emptied exactly when there is no thumbnail. |
| `RepairObject.FixedContentsTwice` | libexif/exif-data.c:1341-1373 | Repairing everything twice is repairing it once. |
| `TagTable.Bsearch` | libexif/exif-tag.c:1001-1033 | A binary search finds a row with the tag exactly when there is one. |
| `TagTable.First` | libexif/exif-tag.c:1014-1033 | The search with its walk back gives the least row with the tag, or -1 exactly when there is none. |
| `TagTable.NameInIfd` | libexif/exif-tag.c:1041-1061 | The name is that of the first row of the whole table with the tag and recorded in the directory. |
| `TagTable.LevelInIfd` | libexif/exif-tag.c:1195-1216 | The level is that of the first such row for the data type. |
| `TagTable.LevelAnyType` | libexif/exif-tag.c:1225-1257 | The level common to all data types of the first row that has one, as a scan of the whole table gives it. |
| `TagTable.SupportLevelInIfd` | libexif/exif-tag.c:1259-1269 | The lookup is the scan. |
| `TagTable.LevelIsUnique` | libexif/exif-tag.c:45-62 | If rows with one tag do not overlap, their order is immaterial: a level is found exactly when some row gives it. |
| `TagTable.AnyTypeExactly` | libexif/exif-tag.c:1225-1257 | Without a data type a tag is mandatory or optional exactly when some row makes it so for all four data types. |
| `TagTable.NameExactly` | libexif/exif-tag.c:1041-1061 | The name is that of the first row of the tag with any level in the directory. |
| `TagTable.LevelsInOrder` | libexif/exif-tag.c:45-64 | Rows list their levels by directory and data type in the order of the enumerations. |
| `TagTable.AnyTypeNeverNotRecorded` | libexif/exif-tag.c:1225-1257 | Without a data type no tag is ever said to be not recorded. |
| `TagTable.NamedMeansRecorded` | libexif/exif-tag.c:1041-1061 | A tag has a name in a directory exactly when some data type has a level for it there. |
| `ByteOrderSwitch.ArraySetByteOrder` | libexif/exif-utils.c:27-86 | Switching in place, component by component, yields the specified bytes and leaves the rest of the array alone. |
| `ByteOrderSwitch.ShortsKeep` | libexif/exif-utils.c:27-86 | Every short reads the same under the new order. |
| `ByteOrderSwitch.LongsKeep` | libexif/exif-utils.c:27-86 | So does every long and both halves of every rational. |
| `ByteOrderSwitch.RestKeeps` | libexif/exif-utils.c:27-86 | Bytes behind the last component, and formats without byte order, do not change. |
| `ByteOrderSwitch.SwitchedBack` | libexif/exif-utils.c:27-86 | Switching back restores the bytes. |
| `Bytes.ShortRoundTrip` | libexif/exif-utils.c:88-130 | A stored short reads back modulo 2^16, in either order. |
| `Bytes.LongRoundTrip` | libexif/exif-utils.c:131-177 | A stored long reads back modulo 2^32. |
| `Bytes.LongIsShorts` | libexif/exif-utils.c:131-177 | A long is two shorts, the high one first in Motorola order and last in Intel order; |
| `Bytes.ShortOrder` | libexif/exif-utils.c:88-130 | and a short two bytes in the same manner. |
| `Bytes.CheckMulOverflowIsExact` | libexif/exif-system.h:73-80 | The check without multiplication is true exactly when the product is too large. |
| `Utf16.Convert` | libexif/exif-utils.c:218-263 | The loop writes the conversion with its NUL into the front of the output and nothing behind it; without room it writes nothing. |
| `Utf16.ConvertedMeaning` | libexif/exif-utils.c:218-263 | The conversion fits, ends in its NUL, decodes to the leading units that were taken, and one more unit would not have fitted. |
| `Utf16.UnitsExactly` | libexif/exif-utils.c:218-263 | The units are the little-endian shorts of the input up to the first that is zero or only half there. |
| `Utf16.FittingIsLongest` | libexif/exif-utils.c:218-263 | What is taken is the longest leading run that fits. |
| `Utf16.DecodeEncoded` | libexif/exif-utils.c:218-263 | Decoding the output gives back exactly the units: none is split. |
| `Utf16.EncodeIsUtf8` | libexif/exif-utils.c:218-263 | A unit's encoding is that of section 3 of RFC 3629 exactly when it is not half of a surrogate pair. |
| `Utf16.SurrogateExample` | libexif/exif-utils.c:218-263 | The bytes written for the first half of a surrogate pair, which are not UTF-8. |

## Left out

- Values as text (`exif_entry_get_value`, `exif_entry_format_value` and the notes' counterparts), titles, descriptions and the names of formats and directories.
- The contents of the tag tables: the table is any sorted one, in which a tag may have several rows.
- Failing allocations, `exif-mem.c`, reference counts, parent pointers, logging and the `NULL` checks of arguments.
- Reading files, dumping, and `localtime`: what `exif_entry_initialize` gives a new entry is a parameter of which only tag, format and size are known.
- Choosing a maker-note handler by the camera's make: the handler, if one is chosen, is a parameter; the variants within a handler are told apart by their bytes as in the source.
- `libexif/apple`, which the build does not use, and the workaround for one Sanyo offset bug, which its macro switches off.
- The bytes of floats and doubles under a change of byte order, which the source leaves alone; so does the model.
- `level_cost` is read in exact reals; the source computes `ceil (log (n + 0.1) / log (1.1))` in floating point.
- Directories and entries are values inside `ExifDataObject.ExifData`: entries shared between directories or held by a caller are not captured. The output buffer of a save is a sequence updated by `Put` and `Realloc`; its address never matters.
- ExifDataObject.ExifData.SaveData: gives the specified bytes when `FileDetermined` holds (values of at most 65536 components, with all their data or none, and distinct tags); otherwise the source leaves bytes of the grown buffer unwritten, or the order of equal tags open, and only the length, the entries and the note are stated.
- ExifDataObject.ExifData.LoadData: stops before the repairs that follow the specification; `ExifEndToEnd.LoadAndRepair` adds them.
- LoaderJpeg.JpegScan: each marker has a fill byte before it, as JPEG demands; that nothing else is collected is stated for EXIF segments of more than 12 bytes, since a shorter one can hold the very bytes that are collected instead.
- ExifTheorems.PlainRoundTrip: is about files of at most 0xfffe bytes, since the loader looks at no more.
- ExifNoteFile.NotedRoundTrip: there is one maker-note entry in the file, the loader's own rule being that the last one read counts; a PentaxV1 note has at least one entry, since its loader wants eight bytes.
- MakerNoteObject.MnoteData.Load: the offset a handler is told is a number of any size, and 6 plus the offset does not come round at 2^32; the EXIF loader tells none over 0xfffe.
- MakerNoteObject.MnoteData.Save: where an entry has fewer data than its size says, the source reads past them; the model writes zeros.
- LoaderObject.ExifLoader.ScanWindow: the source's bitwise or of size bytes is a sum, into bits that `Loader.FeedReachable` shows to be clear.
- ContentFix.FixedTwice: the user comment is not mandatory and its entries have a byte per component; every loaded entry has (`ExifEndToEnd.LoadThenRepair`).
