# Verified model of Cockatrice's importer, evidence tools and single-instance hand-off

This project models five parts of the Cockatrice repository in Dafny and proves what they are for.
`dafny verify dfyconfig.toml` checks everything.

**The JSON scanner** (`oracle/src/raw_json_scanner.cpp`). `JsonGrammar` gives the language as concrete syntax
trees and the bytes they spell (sections 2 to 7 of RFC 8259, with raw control bytes allowed in strings and
unpaired surrogate escapes refused). `JsonReader` is a reference reader, and `JsonTheorems` proves that it
returns a tree exactly when the tree's text stands there, is well formed, fits the depth budget and is not
continued by the next byte. `RawJsonScanner` and `SetScanner` are the scanner itself: loops over a cursor,
mutually recursive skippers, callbacks, and a `Reporter` object for progress (`ScanProgress`). Each method is
proved against the reader. `SetRanges` says what the scan must return as a walk over the tree, `ScanOffers` at
which offsets it may report progress, `ScanTheorems` what the ranges are like, `ScanReports` how many reports
there are, `ScanExamples` which documents have the most, `JsonStrings` when decoding undoes a spelling.

**The importer** (`oracle/src/oracleimporter.cpp`, `.h`, and the save page of `oracle/src/pages.cpp`).
`Importer` is the importer as an object; its methods are proved against the functions of `CardImport` and
`SplitCards`, about which `CardImportTheorems`, `SplitCards` and `CardColors` prove the properties.
`ImportProtocol` is a state machine of the owner thread and the worker, step by step in any interleaving;
`SaveSetsPage` is the page as an object, whose methods take the steps of that machine.

**The evidence archives** (`scripts/archive-evidence.py`). `ArchiveNames` and `EvidenceArchive` say which
archives are accepted and what they unpack to, `EvidenceTheorems` what accepted archives are like and that
restoring undoes packing. `EvidenceOperations` is a directory as an object whose changes may each fail, with a
ghost trace of every state there was; `pack` and `restore` run on it.

**The review maps** (`scripts/authoring-batch.py`). `JsonPointers` is the escaping and resolving of JSON
pointers (sections 3 and 4 of RFC 6901), `ReviewMaps` the drafting walk as an object that appends to its
catalogue, lines and tokens, `ReviewMapChecks` the validator, `ReviewMapTheorems` how they fit together.

**The single instance** (`cockatrice/src/single_instance_manager.cpp`). `InstanceReceiver` is the receiver of
one connection, `InstanceElection` the election as the code of one process and as a step machine of many.

Library code that the repository does not contain is passed in as functions, with what is assumed of it
stated as a predicate: `DecodesUtf8` for `QString::fromUtf8`, `SortsColors` for `std::sort`, `Sound` for ZIP,
JSON and file names, `Faithful` for `QDataStream`.

## What was found

- The comment at `oracle/src/raw_json_scanner.cpp:24` speaks of at most about 100 progress reports. A scan that
  succeeds makes at most 142, and one of 299 bytes makes 142 (`AtMost142Reports`, `AcceptedWith142Reports`). A
  scan that walks a whole document and then refuses it makes at most 146, and one of 298 bytes makes 146
  (`AtMost146Reports`, `RefusedWith146Reports`). For scans that stop earlier the bound is 199
  (`AtMost199Reports`), which is not claimed to be met.
- `QString::fromUtf8` drops a byte-order mark, and each run of raw characters of a string is decoded by itself.
  So a string does not read back as the text it spells if a raw U+FEFF stands at its start or right after an
  escape; otherwise it does (`EverySpellingIsUndone`).
- Split cards are grouped by name and number run together. Two cards can share a group, and then a translation
  is kept for a name that has no card. `TranslationsHaveCards` gives the exact condition, `ClashLosesCard` an
  input, `NoClashesSuffice` a condition on the data that rules it out.
- `sortAndReduceColors` sorts with an order under which all other letters are equal, so `std::unique` may leave
  duplicates. `DedupesExactlyWhen` says for which strings it cannot.
- The receiver casts the size to `int`. Every way of cutting a message is handled if and only if header and
  payload together are shorter than 2^31 bytes (`EveryCutIsHandedOnOnce`).
- `cockatrice/src/single_instance_manager.h:17` says that `tryRun` answering false means that another instance
  has received the files. In the run of `LaunchMayReachNobody` nothing was written, in that of
  `BusyPrimaryMayNotRead` the primary ended before it had read what was written. `FalseMeansReceived` says
  exactly when the files were received, and `AcknowledgedIsReceived` that an acknowledgement is truthful.
- Removing the server's name can take it from a live primary. Two primaries can come about if and only if that
  happens (`SafeExactlyWithoutStealing`).
- Faces that share an id: the drafted map is then rejected if a later one of them has lines
  (`DraftPartitions`).

## Model

| member | source | states |
|---|---|---|
| JsonTheorems.ReadValueIff | oracle/src/raw_json_scanner.cpp:304-464 | the reader returns a tree and an end exactly when the bytes there are that well-formed value, nested within the budget, and the next byte does not continue it |
| JsonTheorems.DelimitedValueIff | oracle/src/raw_json_scanner.cpp:344-464 | for a value followed by a delimiter or the end, skipping succeeds with that end if and only if the bytes up to it are a JSON value of nesting at most the budget |
| JsonTheorems.Locality | oracle/src/raw_json_scanner.cpp:448-464 | what was read once is read again, to the same end, with every larger budget and every bound between its end and the old bound |
| JsonTheorems.SliceReads | oracle/src/raw_json_scanner.cpp:612-614 | the bytes of a value, cut out and read alone, are the same value |
| JsonTheorems.TextIsUnambiguous | oracle/src/raw_json_scanner.cpp:448-464 | no two well-formed values have the same bytes |
| JsonStrings.EverySpellingIsUndone | oracle/src/raw_json_scanner.cpp:166-269 | however a text is spelled, with raw characters, short escapes, four-digit escapes and surrogate pairs, the string is accepted, and decodes to the text if and only if no raw run starts with a byte-order mark |
| RawJsonScanner.SkipWhitespace | oracle/src/raw_json_scanner.cpp:64-70 | stops at the first byte that is not blank |
| RawJsonScanner.SkipString | oracle/src/raw_json_scanner.cpp:92-160 | with its jumps to the next quote, accepts and ends exactly as the byte-by-byte reader |
| RawJsonScanner.DecodeString | oracle/src/raw_json_scanner.cpp:166-269 | accepts and ends as the same reader, hence as SkipString, and returns the text that the items denote |
| RawJsonScanner.DecodeEscape | oracle/src/raw_json_scanner.cpp:181-257 | one escape, with its surrogate pairs, and the code units it stands for |
| RawJsonScanner.MatchLiteral | oracle/src/raw_json_scanner.cpp:291-302 | accepts the word exactly when it stands there and no word character follows |
| RawJsonScanner.SkipNumber | oracle/src/raw_json_scanner.cpp:304-342 | accepts and ends as the reader of numbers |
| RawJsonScanner.SkipPrimitive | oracle/src/raw_json_scanner.cpp:348-370 | accepts and ends as the reader of values that are not containers |
| RawJsonScanner.SkipObject | oracle/src/raw_json_scanner.cpp:372-414 | the loop over members accepts and ends as the reader of objects, and offers the end of every value inside |
| RawJsonScanner.SkipArray | oracle/src/raw_json_scanner.cpp:416-446 | the loop over elements accepts and ends as the reader of arrays, and offers the end of every value inside |
| RawJsonScanner.SkipValue | oracle/src/raw_json_scanner.cpp:448-464 | accepts and ends as the reader, for every depth and bound, terminates, and offers the end of every value inside |
| RawJsonScanner.CountArrayElements | oracle/src/raw_json_scanner.cpp:524-554 | the number of elements of an array that was skipped before, never a failure at the budget it is called with |
| ScanProgress.Reporter.Report | oracle/src/raw_json_scanner.cpp:41-56 | lets an offset through exactly as the throttle says; what is reported is the filter of all that was offered |
| ScanProgress.AtMost199Reports | oracle/src/raw_json_scanner.cpp:41-56 | at most 199 reports for bytes of any size, accepted or not |
| ScanProgress.FilteredIsSpaced | oracle/src/raw_json_scanner.cpp:41-56 | whatever offsets are offered, again and again, those let through are strictly increasing, spaced, and among them |
| ScanReports.LaterWalksOfferNothingNew | oracle/src/raw_json_scanner.cpp:597-662 | the walks of sets, fields and card elements offer only offsets that the first skip has offered |
| ScanReports.AtMost142Reports | oracle/src/raw_json_scanner.cpp:41-56 | a scan that succeeds reports at most 142 times, for every document |
| ScanReports.AtMost146Reports | oracle/src/raw_json_scanner.cpp:41-56 | a scan that walks a whole document and refuses it reports at most 146 times |
| ScanExamples.AcceptedWith142Reports | oracle/src/raw_json_scanner.cpp:22-27 | a document that is accepted with 142 reports |
| ScanExamples.RefusedWith146Reports | oracle/src/raw_json_scanner.cpp:22-27 | a document that is walked and refused with 146 reports |
| SetRanges.DocumentIsRead | oracle/src/raw_json_scanner.cpp:589-670 | a document, blanks around an object nested at most 1024 deep, is what the top-level skip finds |
| SetRanges.ReadIsDocument | oracle/src/raw_json_scanner.cpp:589-670 | and what the top-level skip finds up to the end is a document |
| SetRanges.DocumentIsUnique | oracle/src/raw_json_scanner.cpp:561-679 | the bytes determine the document |
| SetScanner.Walker.ForEachObjectMember | oracle/src/raw_json_scanner.cpp:473-520 | runs the callback on exactly the members of the object, in order, with decoded keys and the bounds of their values |
| SetScanner.Walker.TopLevelCallback | oracle/src/raw_json_scanner.cpp:597-662 | refuses a member with key "data" exactly when it is not an object of objects, and otherwise takes in its ranges |
| SetScanner.Walker.SetCallback | oracle/src/raw_json_scanner.cpp:607-654 | fails exactly when the set is not an object: the second walk never contradicts the first |
| SetScanner.Walker.FieldCallback | oracle/src/raw_json_scanner.cpp:620-646 | never fails; updates the range by that field |
| SetScanner.ScanSetRanges | oracle/src/raw_json_scanner.cpp:561-679 | succeeds exactly on the importable documents, with the ranges of the tree; otherwise returns none and names the error; for every document that is walked to its end the reports are exactly the filter of the offsets that the tree has, and on success the last is the end |
| ScanTheorems.RangeIsLast | oracle/src/raw_json_scanner.cpp:612-654 | code, name, type and date are the last text member of their key, the code falling back to the set's key; the card count is that of the last array "cards" |
| ScanTheorems.FieldsAreLast | oracle/src/raw_json_scanner.cpp:620-646 | the same for any list of fields, by induction |
| ScanTheorems.CountIsSmall | oracle/src/raw_json_scanner.cpp:524-554 | an array of n elements takes at least 2n bytes, so the count fits an int below 4 GiB |
| ScanTheorems.SlicesAreGood | oracle/src/raw_json_scanner.cpp:612-614 | the slices are in document order, disjoint and in bounds, and each alone is one object that the scanner accepts |
| Importer.SortSets | oracle/src/oracleimporter.cpp:154 | a permutation with no set before a lesser one, ties in any order |
| Importer.BuildSetList | oracle/src/oracleimporter.cpp:122-154 | the ranges as sets to import, permuted and sorted by long name |
| Importer.PermutedInBounds | oracle/src/oracleimporter.cpp:815-821 | the slice bounds check never fires on the data the sets were scanned from |
| Importer.OracleImporter.ReadSetsFromByteArray | oracle/src/oracleimporter.cpp:101-162 | succeeds exactly when the scan does; then the sets are sorted, a permutation of the document's, with slices in bounds; otherwise none |
| Importer.OracleImporter.PrepareImport | oracle/src/oracleimporter.h:298-303 | clears the flag, the success and the message, nothing else |
| Importer.OracleImporter.CancelImport | oracle/src/oracleimporter.h:311-314 | sets the flag, nothing else |
| Importer.OracleImporter.FailImport | oracle/src/oracleimporter.cpp:861-871 | keeps nothing of the import but its message, and returns zero |
| Importer.OracleImporter.AddCard | oracle/src/oracleimporter.cpp:212-304 | a new card, or an old one with one more printing and, if it had none, the legalities |
| Importer.OracleImporter.CollectForeignData | oracle/src/oracleimporter.cpp:340-375 | the first entry in the wanted language replaces a kept one of higher priority value only |
| Importer.OracleImporter.MergeParts | oracle/src/oracleimporter.cpp:622-679 | joined texts, the joined translation if every face has one, the merged properties, and the printing |
| Importer.OracleImporter.ImportCardsFromSet | oracle/src/oracleimporter.cpp:409-700 | the database after one set is that of the specification functions |
| Importer.OracleImporter.ApplyLocalizedData | oracle/src/oracleimporter.cpp:377-407 | every card has its translation, split texts over single ones, whatever order the maps are walked in |
| Importer.OracleImporter.StartImport | oracle/src/oracleimporter.cpp:772-859 | with cancellation at any poll: either every selected set has been taken in, or the result is zero and nothing is left |
| Importer.OracleImporter.SaveToFile | oracle/src/oracleimporter.cpp:873-881 | writes only after a successful import |
| Importer.AfterSetsImports | oracle/src/oracleimporter.cpp:803-844 | the database of an import is the fold of its sets, and every set is in it |
| SplitCards.MergeProperties | oracle/src/oracleimporter.cpp:649-678 | merging the faces' properties, walking each hash in any order, gives one result |
| SplitCards.MergedPropertyIsFold | oracle/src/oracleimporter.cpp:653-678 | that result, key by key, is a fold over the faces of that key's values alone |
| SplitCards.MergedMainType | oracle/src/oracleimporter.cpp:663-671 | folding main types face by face equals getMainCardType of all of them in order |
| SplitCards.MainTypeIsMember | oracle/src/oracleimporter.cpp:181-194 | the main type is one of the types |
| CardImportTheorems.SplitCardMainType | oracle/src/oracleimporter.cpp:525-530 | the merged card's main type is getMainCardType of its faces' type lists in order; a face whose main type is empty counts for nothing |
| CardImportTheorems.SplitCardColors | oracle/src/oracleimporter.cpp:251-261 | a new split card has the union of its faces' colours, each once, in WUBRG order |
| CardColors.SortAndReduceColors | oracle/src/oracleimporter.cpp:201-210 | any sorted permutation of colour letters reduces to the set of them in WUBRG order |
| CardColors.DedupesExactlyWhen | oracle/src/oracleimporter.cpp:201-210 | every possible sort of a string is rid of duplicates if and only if it has at most one kind of other letter, or each once |
| CardImportTheorems.KeptIsFirstOfLowest | oracle/src/oracleimporter.cpp:368-374 | the kept translation of a key is the first offered among those of lowest priority value |
| CardImportTheorems.DatabaseAfter | oracle/src/oracleimporter.cpp:409-700 | after any sequence of sets: which cards there are, which translations and which joined split texts are kept, by the same rule of first and lowest priority value, and that every split text has its card |
| CardImportTheorems.TranslationsHaveCards | oracle/src/oracleimporter.cpp:382-386 | every kept translation has a card if and only if each translated face that joins a group has the name of some card |
| CardImportTheorems.NoClashesSuffice | oracle/src/oracleimporter.cpp:556-561 | so it is when faces with the same group key have the same name |
| CardImportTheorems.ClashLosesCard | oracle/src/oracleimporter.cpp:556-564 | two faces whose names and numbers run together: a translation without a card |
| ImportProtocol.StepKeepsInv | oracle/src/oracleimporter.cpp:772-898 | every step of either thread keeps the protocol's invariant |
| ImportProtocol.RunKeepsInv | oracle/src/pages.cpp:733-835 | hence every state of every run has it |
| ImportProtocol.CancelledImportIsEmpty | oracle/src/oracleimporter.cpp:805-847 | a cancel before the worker's last poll ends with result zero, no sets, no cards, no success |
| ImportProtocol.NoWorkerAfterCancelWork | oracle/src/pages.cpp:785-798 | in every run, once cancelWork has returned no worker runs until the page is initialized again |
| ImportProtocol.CancelledPageStaysUnready | oracle/src/pages.cpp:785-818 | a cancelled page is not ready again before its next initialization |
| ImportProtocol.WrittenIsWhole | oracle/src/oracleimporter.cpp:873-881 | whatever was written is the database of every selected set |
| SaveSetsPage.WizardPage.InitializePage | oracle/src/pages.cpp:746-783 | takes the protocol's initialization step |
| SaveSetsPage.WizardPage.CancelWork | oracle/src/pages.cpp:785-797 | takes the cancel step, or none when no import is active |
| SaveSetsPage.WizardPage.ImportFinished | oracle/src/pages.cpp:800-818 | takes the step of the result, ready only for a success that counts every set |
| SaveSetsPage.WizardPage.CleanupPage | oracle/src/pages.cpp:738-744 | takes the clean-up step |
| SaveSetsPage.WizardPage.ValidatePage | oracle/src/pages.cpp:882-933 | writes only on a complete page, and what the protocol's save step writes |
| ArchiveNames.NameOfPath | scripts/archive-evidence.py:45-55 | the name a node is packed under is read back as its path, and tells files from directories |
| ArchiveNames.PathOfName | scripts/archive-evidence.py:45-55 | a valid name stands for a good path whose name it is |
| ArchiveNames.NamesAreDistinct | scripts/archive-evidence.py:45-55 | different nodes have different names |
| EvidenceArchive.ReadArchive | scripts/archive-evidence.py:104-143 | the loop with its set of destinations accepts exactly the accepted archives and extracts their tree |
| EvidenceTheorems.AcceptedIsTree | scripts/archive-evidence.py:113-123 | an accepted archive has one root and holds the parent directory of everything |
| EvidenceTheorems.AcceptedIsCaseDistinct | scripts/archive-evidence.py:124-127 | no two of its destinations are equal after case folding |
| EvidenceTheorems.AcceptedMatchesManifest | scripts/archive-evidence.py:110-143 | its manifest names exactly its nodes, with the hashes of their bytes |
| EvidenceTheorems.RootIsNotManifest | scripts/archive-evidence.py:113-123 | no archive is accepted for an item named like the manifest |
| EvidenceTheorems.PackedIsAccepted | scripts/archive-evidence.py:157-173 | what pack writes is accepted if and only if no two paths are equal after case folding |
| EvidenceTheorems.RestoreUndoesPack | scripts/archive-evidence.py:104-211 | then it unpacks to the same tree: paths, empty directories, bytes |
| EvidenceOperations.EvidenceDirectory.Inventory | scripts/archive-evidence.py:58-74 | the worklist lists every node of the source once, or refuses exactly when some node is not allowed |
| EvidenceOperations.EvidenceDirectory.WriteStaging | scripts/archive-evidence.py:157-172 | writes the members and the manifest of the source into the staging file, and touches nothing else |
| EvidenceOperations.EvidenceDirectory.Verify | scripts/archive-evidence.py:173-175 | lets the archive through exactly when the source's paths are case-distinct |
| EvidenceOperations.EvidenceDirectory.Pack | scripts/archive-evidence.py:146-189 | accepts exactly what it may, publishes a verified archive of the whole source, touches nothing else; at every step, whatever fails, the source is whole or such an archive is published, and no other archive ever is |
| EvidenceOperations.EvidenceDirectory.Restore | scripts/archive-evidence.py:192-211 | accepts exactly the readable archives without a destination, adds the tree and nothing else; at every step the destination is missing or complete |
| EvidenceOperations.EvidenceDirectory.PackThenRestore | scripts/archive-evidence.py:146-211 | whatever pack accepts comes back: the directory is as before but for the archive, unless the disk fails |
| EvidenceDisk.Ancestor | scripts/archive-evidence.py:66-73 | in a file system every ancestor of a listed node is listed |
| EvidenceDisk.PackedCanBeRestored | scripts/archive-evidence.py:181-201 | after packing with removal, restore accepts the archive and it unpacks to the source |
| JsonPointers.UnescapeEscape | scripts/authoring-batch.py:216 | the two replacements of the reader undo those of the writer, for every key |
| JsonPointers.DecimalReadsBack | scripts/authoring-batch.py:116-118 | a printed index is canonical and reads back as itself |
| JsonPointers.OneSpelling | scripts/authoring-batch.py:217-220 | a canonical index is the printed form of its number, so an index has one spelling |
| JsonPointers.ResolvePointer | scripts/authoring-batch.py:210-224 | the loop down the tree finds the node that the pointer stands for, or fails as it must |
| JsonPointers.ResolveLonger | scripts/authoring-batch.py:215-222 | one more part is one more step |
| ReviewMaps.Scaffold.Record | scripts/authoring-batch.py:101-109 | refuses line numbers that are not a non-empty increasing list of existing lines, and otherwise lists the pointer under each |
| ReviewMaps.Scaffold.Walk | scripts/authoring-batch.py:98-118 | appends the pointers of all nodes, each before its children, under every line they claim; refuses exactly when some node's lines are invalid |
| ReviewMaps.Scaffold.Draft | scripts/authoring-batch.py:82-133 | refuses exactly what it must, and drafts a span for every line of every face |
| ReviewMapChecks.CoverSpan | scripts/authoring-batch.py:205-209 | covers a span's lines exactly when all are expected and still free |
| ReviewMapChecks.ValidateMap | scripts/authoring-batch.py:197-226 | accepts exactly the maps whose spans are valid, resolve, and partition the expected lines |
| ReviewMapTheorems.EmittedPointersResolve | scripts/authoring-batch.py:98-120 | every emitted pointer resolves to the very node it was emitted for, in any tree with any keys |
| ReviewMapTheorems.EmittedPointersDiffer | scripts/authoring-batch.py:98-120 | no two emitted pointers are equal |
| ReviewMapTheorems.DraftPartitions | scripts/authoring-batch.py:121-125 | the drafted spans partition the source lines if and only if no face with a line has the id of an earlier face |
| ReviewMapTheorems.DraftIsAccepted | scripts/authoring-batch.py:82-226 | the draft is accepted against its own tree if and only if, besides, every line is claimed |
| InstanceReceiver.Receiver.ReadyRead | cockatrice/src/single_instance_manager.cpp:124-190 | one chunk, as the specification function does it |
| InstanceReceiver.Receiver.Receive | cockatrice/src/single_instance_manager.cpp:124-190 | all chunks of a connection, one after the other |
| InstanceReceiver.EveryCutIsHandedOnOnce | cockatrice/src/single_instance_manager.cpp:115-190 | for every cut of a message into chunks the list is handed on once, at the completing chunk, with one acknowledgement: if and only if the size as an int is not negative |
| InstanceReceiver.SentIsReceived | cockatrice/src/single_instance_manager.cpp:83-94 | the list that is handed on is the list that was sent |
| InstanceReceiver.BigEndianReadsBack | cockatrice/src/single_instance_manager.cpp:87-90 | the header is read back as the size |
| InstanceElection.SingleInstanceManager.ForwardToPrimary | cockatrice/src/single_instance_manager.cpp:74-113 | writes the message exactly when it connects; an empty list is never found busy |
| InstanceElection.SingleInstanceManager.TryRun | cockatrice/src/single_instance_manager.cpp:26-72 | follows the phases of the step machine, writes at most once, and as primary nothing |
| InstanceElection.AtMostOneWrite | cockatrice/src/single_instance_manager.cpp:26-72 | in every run of many processes each writes at most once, and one that is primary has written nothing |
| InstanceElection.SafeExactlyWithoutStealing | cockatrice/src/single_instance_manager.cpp:62-68 | along a run and one step beyond there is at most one live primary if and only if no removal takes the name from a live process |
| InstanceElection.QuietRunsAreSafe | cockatrice/src/single_instance_manager.cpp:53-68 | so it is when nobody starts listening between a process's second probe and its removal |
| InstanceElection.LaunchMayReachNobody | cockatrice/src/single_instance_manager.cpp:66-71 | a run in which tryRun answers false and has written nothing |
| InstanceElection.BusyPrimaryMayNotRead | cockatrice/src/single_instance_manager.cpp:104-113 | a run in which tryRun answers false, has written its files, and the primary ends without having read them |
| InstanceElection.MessageFate | cockatrice/src/single_instance_manager.cpp:26-113 | in every run each message written is unread, read, or lost with its primary, and only one of these |
| InstanceElection.FalseMeansReceived | cockatrice/src/single_instance_manager.cpp:26-113 | in every run, a process that answered false has had its files received if and only if its third probe did not fail, its primary did not end before reading, and they are not still unread |
| InstanceElection.AcknowledgedIsReceived | cockatrice/src/single_instance_manager.cpp:104-113 | a process whose files were acknowledged has had them received |

## Left out

- ScanSetRanges: which of the two error texts a malformed document gets (malformed JSON or malformed set data) is fixed only for well-formed documents; every such document fails with no ranges.
- ReadSetsFromByteArray: set priorities, capitalized set types and release dates are functions of the set; the int conversion of progress offsets is not modelled.
- AddCard: braces of mana costs, table row, tapped entry, orientation and card relations do not take part in what is proved.
- ImportCardsFromSet: letters and lower case of collector numbers are those of ASCII.
- SortAndReduceColors: std::sort is any function that sorts; the importer's own is a parameter.
- SaveToFile: the XML writer is one step that may fail; a plain XML download is not followed past the page's flags.
- StepKeepsInv: the flag and the worker's results are sequentially consistent, and a result signal of a cancelled import is dropped.
- Pack: the closed-run checks are one boolean; links, reparse points, mounts and devices are one kind of node; equal stat tuples mean equal content; there are no concurrent writers.
- Restore: the members are read before they are written into staging, in any order; the source does both member by member.
- Draft: of a face's text only the number of its non-blank lines matters; semantic test names and the record's constant fields are not modelled.
- ValidateMap: one card and its map at a time; reading the files, name and version checks are not modelled.
- ReadyRead: one framed message per connection; sockets, their lifetime and nested event loops are not modelled.
- SafeExactlyWithoutStealing: a bound name is always reached, and a listen succeeds only on an unbound name.
- FalseMeansReceived: a time-out is a step that may come at any time; how long it takes is not modelled.
- Verify: the second inventory compares the listed paths; without concurrent writers the stat tuples beside them are equal.
- ValidatePage: the choice of a path and the plain XML save are not modelled.
- ApplyLocalizedData: a card's localized name and text are those of the one language that is imported.
- `validate_assessments`, `preflight`, `freeze`, `doctor` and the other phases of `scripts/authoring-batch.py`: subprocesses, clocks and files.
- `oracle/src/parsehelpers.cpp`: regular expressions.
- Wizard pages other than the save page, downloads, decompression and dialogs.
- `cockatrice/src/installer_close_server.cpp` and the start-up code.
