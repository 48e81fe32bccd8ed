# Invoice duplicate detector — a Dafny model

The system files invoice PDFs into a long-lived repository of invoice texts
and keeps duplicate invoices out of it. One run takes a source folder and a
repository folder and goes through six stages, always in this order:

1. **copy**: every file of the source folder (walked recursively when it has
   sub-folders) is copied into the main PDF folder when its name ends in
   `.pdf` (any case), and into Exception otherwise;
2. **extract**: each PDF of the main folder gets its text from the PDF text
   layer or, failing that, from OCR. Text of at least 30 characters is
   written to the extracted-text folder as `<stem>.txt`. A PDF without such
   text is moved to Exception;
3. **local de-duplication**: the extracted texts are fingerprinted (lower
   case, all whitespace removed, SHA-256). The first text with a given
   fingerprint wins. Each later one is deleted, and its PDF moves to
   Duplicates;
4. **comparison with the repository**: the fingerprints of the repository's
   `.txt` files are collected first. A batch text whose fingerprint is
   among them is deleted and its PDF moved to Duplicates. Otherwise its PDF
   moves to Unique. Finally every `.pdf` in Exception is *copied* to Unique
   for inspection;
5. **repository update**: each remaining text is moved into the repository
   under `INVC_<ddmmyyyy>_<HHMMSS>_<Mon_yy>.txt`, or under the first free
   `…_<n>.txt` variant when that name is taken;
6. **cleanup**: PDFs still in the main folder move to Exception.

The script `DF_Final.py` runs the six stages once. The GUI version
`PyQt_Final.py` runs the same stages inside `InvoicePipeline` on a worker
thread. It polls a stop flag: at the start of every stage, before every loop
item, inside `extract_text_from_pdf`, and between stages.

## How the model is built

- **Folders.** The six folders are maps from file name to content (the
  `Folders` datatype). The `FileStore` class holds them as fields, and the
  stage methods change those fields in place (`file_system.dfy`).
- **Listings.** An `os.listdir` result is any duplicate-free sequence of
  exactly a folder's names (`IsListingOf`). No order is fixed, so
  every property holds for every listing order.
- **Failures.** A file operation that raises is an input: a set `fails` of
  (folder, name) pairs. Its item is skipped, as the per-file `try` blocks
  do. Each stage after the copy has its own set (`Pipeline.Failures`), so a
  text may fail to be read during de-duplication or classification and
  still be moved into the repository by the update. For the copy stage it
  is a set of unreadable source paths, and the first such path ends the
  walk, as the single `try` around that walk does.
- **Stages.** Each stage has a step function for one loop iteration and a
  fold of that step over a listing. A step method carries the iteration out
  on the `FileStore` and is proved equal to the step function.
- **Drivers.** The driver methods of both programs are proved to leave
  exactly the fold's result in the store. The properties are lemmas about
  the folds, and the end-to-end ones are lemmas about `Pipeline.RunAll`.
- **Stop flag.** `IsSet` may find the flag raised at any poll, and once
  raised it stays raised. The GUI driver is proved to leave the store as
  the stage specifications applied to some prefix of the work: all stages
  up to some point completed, and the last of them possibly cut short.

## Model

| member | source | states |
|---|---|---|
| Text.LowerChar | DF_Final.py:128 | one character of `str.lower`: never an upper-case letter, and only upper-case letters change |
| Text.Lower | DF_Final.py:128 | `str.lower` keeps the length and lowers every character on its own |
| Text.LowerAppend | DF_Final.py:128 | lower-casing distributes over concatenation |
| Text.RemoveWhitespace | DF_Final.py:128 | `''.join(s.split())` keeps no whitespace character (Python's `isspace` set), never grows, and only keeps characters of the input |
| Text.RemoveWhitespaceAppend | DF_Final.py:128 | removing whitespace distributes over concatenation |
| Text.RemoveWhitespaceOfClean | DF_Final.py:128 | text without whitespace is left as it is |
| Text.Select | DF_Final.py:135 | the list comprehension keeps exactly the listed names whose lower-cased name ends in the extension, is no longer than the listing, and repeats nothing when the listing repeats nothing |
| Text.LastDot | DF_Final.py:108 | position of the last dot, or -1 when there is none |
| Text.Stem | DF_Final.py:108 | `os.path.splitext(f)[0]` is a prefix of f; when it is shorter, it is cut at the last dot and is not made of dots only |
| Text.StemOfExtended | DF_Final.py:108 | splitting `base + ext` (ext a dot followed by dot-free characters) gives back base |
| Text.TxtNameIsTxt | DF_Final.py:108 | the text name written for any PDF ends in `.txt`, so the later `.txt` filters pick it up |
| Text.PdfTxtRoundTrip | DF_Final.py:152 | the PDF name derived from the text of `base.pdf` is `base.pdf` again, so dedup and compare find the PDF that text came from |
| Text.NatToString | DF_Final.py:246 | `str(count)` is a non-empty string of decimal digits without a leading zero |
| Text.NatToStringInjective | DF_Final.py:246 | different counters give different suffix strings |
| Fingerprint.Normalize | DF_Final.py:128 | the normalised text has no whitespace and no capital letter |
| Fingerprint.HashIgnoresCase | DF_Final.py:127-129 | lower-casing a text first does not change its fingerprint |
| Fingerprint.HashIgnoresLetterCase | DF_Final.py:127-129 | changing the case of one letter anywhere does not change the fingerprint |
| Fingerprint.HashIgnoresWhitespace | DF_Final.py:127-129 | deleting one whitespace character anywhere does not change the fingerprint |
| Fingerprint.NormalFormIff | DF_Final.py:128 | a text is its own normal form exactly when it has no whitespace and no capital letter |
| Fingerprint.NormalizeIdempotent | DF_Final.py:127-129 | normalising twice is normalising once |
| Fingerprint.InvoiceNumberExample | DF_Final.py:127-129 | `"Invoice  #123"` and `"invoice#123"` have the same fingerprint |
| FileSystem.ListDir | DF_Final.py:101 | `os.listdir` returns each name of the folder exactly once |
| Intake.ProcessFile | DF_Final.py:48-56 | `process_file` either raises, which ends the walk with folders and counters as they were, or adds exactly one to the two counters together |
| Intake.CopyOne | DF_Final.py:48-56 | one `process_file` on the file store does what `ProcessFile` describes |
| Intake.IntakeFrame | DF_Final.py:40-72 | whatever fails, the copy stage only adds or replaces entries of Main and Exception |
| Intake.IntakeCounts | DF_Final.py:48-67 | when no copy fails, every visited file is counted once, `pdf_count` counts the `.pdf` names and no other folder changes |
| Intake.IntakeRouting | DF_Final.py:50 | when no copy fails, Main gains exactly the visited `.pdf` names and Exception exactly the other visited names |
| Intake.IntakeLastCopyWins | DF_Final.py:51 | for a name visited more than once, the last copy's content is what the folder holds |
| Intake.FailureAbortsWalk | DF_Final.py:45-72 | a copy that raises ends the whole walk: the result is that of the files before it |
| Extraction.ExtractTextFromPdf | DF_Final.py:75-92 | the text layer when it has at least 30 characters, else OCR text of at least 30 characters, else `("", None)`; the engine tag names the source of the text |
| Extraction.ExtractStep | DF_Final.py:101-121 | one iteration only removes the PDF it handles from Main, and only by moving it to Exception with its content; it deletes no text, every text it writes has at least 30 characters, and it changes no other folder |
| Extraction.StoreOne | DF_Final.py:103-121 | one iteration on the file store does what `ExtractStep` describes |
| Extraction.ExtractionFrame | DF_Final.py:95-124 | after the stage: Main only lost listed PDFs, each of them now in Exception with its bytes; no text deleted; every new text has at least 30 characters; Unique, Duplicates and the repository untouched |
| Extraction.ExtractionRouting | DF_Final.py:101-121 | a listed PDF whose operations succeed stays in Main exactly when the extractor accepts it, and then its `.txt` holds at least 30 characters |
| Extraction.ExtractionStoresText | DF_Final.py:101-121 | when no other listed PDF has the same `.txt` name, an accepted PDF's `.txt` holds exactly the text `extract_text_from_pdf` returned for its bytes |
| Extraction.CancelledExtractionDemotes | PyQt_Final.py:161 | a PDF whose extraction sees the stop flag moves to Exception as a failed extraction, and no text is written for it |
| LocalDedup.DedupStep | DF_Final.py:140-162 | an unreadable file changes nothing; a new fingerprint is recorded and nothing moves; a known one deletes the text, adds one to `removed_count`, and moves the PDF to Duplicates when it is in Main |
| LocalDedup.DedupOne | DF_Final.py:140-162 | one iteration on the file store does what `DedupStep` describes |
| LocalDedup.ReadableCount | DF_Final.py:139-142 | the count of readable listed files that `DedupCount` and `RemovedCount` relate `removed_count` to; at most the listing's length |
| LocalDedup.DedupFrame | DF_Final.py:132-165 | dedup only deletes listed readable texts and keeps the content of the rest, only moves PDFs from Main to Duplicates with their content, and leaves Exception, Unique and the repository alone |
| LocalDedup.DedupSeenKeys | DF_Final.py:159-160 | `seen_hashes` ends holding exactly the fingerprints of the readable listed texts |
| LocalDedup.DedupSeenFirst | DF_Final.py:159-160 | each fingerprint in `seen_hashes` maps to the first readable file that had it |
| LocalDedup.FirstSeenWins | DF_Final.py:139-160 | a readable text survives exactly when no earlier readable text in the listing has its fingerprint |
| LocalDedup.DedupCount | DF_Final.py:146-160 | `removed_count` plus the number of distinct fingerprints is the number of readable texts |
| LocalDedup.RemovedCount | DF_Final.py:146-148 | when all texts are readable, `removed_count` is the number of texts minus the number of distinct fingerprints |
| LocalDedup.CleanBatchUnchanged | DF_Final.py:132-165 | a batch without two equal fingerprints is left exactly as it was, and nothing is counted as removed |
| LocalDedup.SurvivorPairDistinct | DF_Final.py:139-160 | two different surviving listed texts that are readable have different fingerprints |
| LocalDedup.DedupIdempotent | DF_Final.py:132-165 | running dedup again over any of the same names changes nothing and removes nothing |
| RepoCompare.RepoHashesOfPrefix | DF_Final.py:171-179 | after the first loop has seen part of the listing, `repo_hashes` holds the fingerprints of the readable `.txt` files in that part |
| RepoCompare.RepoHashesComplete | DF_Final.py:171-179 | over a full listing, `repo_hashes` is the fingerprint set of all readable repository `.txt` files, in any listing order |
| RepoCompare.ClassifyOne | DF_Final.py:185-209 | one iteration of the classification loop on the file store does what `CompareStep` describes |
| RepoCompare.CompareFrame | DF_Final.py:185-209 | classification never touches Exception or the repository, and only deletes listed readable texts |
| RepoCompare.StepPdfEntry | DF_Final.py:192-205 | one iteration touches at most the PDF named after its text, and moves it out of Main only into Duplicates or Unique, with its content |
| RepoCompare.CompareMovesPdfs | DF_Final.py:185-209 | every PDF that leaves Main during classification is in Duplicates or Unique with its content |
| RepoCompare.CompareUnclaimed | DF_Final.py:185-209 | a PDF that no listed text names is left where it was |
| RepoCompare.UnvisitedUnchanged | DF_Final.py:185-209 | a text the loop does not list is left alone |
| RepoCompare.CompareKeepsText | DF_Final.py:194-199 | a readable listed text survives classification exactly when its fingerprint is not in `repo_hashes` |
| RepoCompare.ComparePdfFirst | DF_Final.py:192-205 | when a readable text's PDF is named by no other listed text, that PDF is routed once its text is visited: to Duplicates on a known fingerprint, otherwise to Unique |
| RepoCompare.CompareRouting | DF_Final.py:185-209 | for such a text: it survives iff its fingerprint is new; its PDF leaves Main; it goes to Duplicates when known and to Unique when new |
| RepoCompare.MemberCount | DF_Final.py:194-200 | the count of readable listed texts with a known fingerprint, which `CompareCounts` equates with `count_duplicates`; at most the listing's length |
| RepoCompare.CompareCounts | DF_Final.py:185-209 | `count_duplicates` counts the readable texts with a known fingerprint, and at most one counter moves per text |
| RepoCompare.CompareUniqueCount | DF_Final.py:185-209 | when no two listed texts name the same PDF, `count_unique` counts the readable texts with a new fingerprint whose PDF was in Main |
| RepoCompare.CopyOne | DF_Final.py:212-218 | one `shutil.copy2` of an Exception PDF into Unique on the file store does what `CopyStep` describes |
| RepoCompare.CopyExceptionsExact | DF_Final.py:212-218 | the last loop changes only Unique, which then holds every listed `.pdf` of Exception whose copy succeeds, with the Exception content; Exception keeps them (copy, not move) |
| RepoCompare.CrossCompareRouting | DF_Final.py:168-221 | whole stage: repository and Exception unchanged; a readable text whose PDF no other text names survives exactly when no readable repository text has its fingerprint, and its PDF goes to Duplicates or Unique accordingly |
| RepoNaming.BaseName | DF_Final.py:240 | the base name ends in `.txt` |
| RepoNaming.ReplaceAtEndOnly | DF_Final.py:246 | `str.replace` on a string whose only occurrence of the pattern is at its end replaces just that end |
| RepoNaming.CandidateShape | DF_Final.py:240-246 | the probe's names are `INVC_…_<Mon_yy>.txt`, then `INVC_…_<Mon_yy>_<n>.txt` |
| RepoNaming.CandidateInjective | DF_Final.py:240-246 | different probe counters give different names |
| RepoNaming.DotFreeStampIsValid | DF_Final.py:228-231 | a timestamp whose three parts contain no dot puts `.txt` in the base name only at its end |
| RepoNaming.TriedCount | DF_Final.py:245-247 | the probe's first n names are n different names |
| RepoNaming.ProbeBound | DF_Final.py:245-247 | if the first n candidates are all taken, the repository holds at least n files, so the probe loop ends |
| RepoNaming.FreeIndex | DF_Final.py:245-247 | the probe stops at the first counter whose name is free, after all earlier names were found taken |
| RepoNaming.ResolvedName | DF_Final.py:240-247 | the name chosen is not in the repository and is the first free one in probe order |
| RepoNaming.FirstFreeIsResolved | DF_Final.py:240-247 | the first free candidate is the name chosen |
| RepoNaming.Probe | DF_Final.py:240-247 | the `while os.path.exists` loop ends with a free name, namely the first free candidate |
| RepoNaming.ResolvedIsCandidate | DF_Final.py:240-247 | the chosen name is one of the generated names |
| RepoUpdate.UpdateOne | DF_Final.py:236-256 | one iteration on the file store does what `UpdateStep` describes |
| RepoUpdate.UpdateFrame | DF_Final.py:224-259 | only the extracted-text folder and the repository change; old repository entries keep their content; `moved_count` equals the number of moves and the repository grows by exactly that many |
| RepoUpdate.UpdateNames | DF_Final.py:240-256 | the new names are pairwise different, none was in the repository, each is a generated name, their `_n` counters strictly increase in the order the moves happened, and the repository gains exactly them |
| RepoUpdate.UpdateTakenUpTo | DF_Final.py:240-256 | after the loop, every generated name up to the counter of each new name is in the repository |
| RepoUpdate.UpdateSuffixesIncrease | DF_Final.py:240-256 | a name given later in one call has a larger counter than every name given before it |
| RepoUpdate.UpdateNamesFresh | DF_Final.py:240-256 | new names are pairwise different and not previously in the repository, and the repository gains exactly them |
| RepoUpdate.UpdateNamesAreCandidates | DF_Final.py:240-247 | every new name is a generated name for the run's timestamp |
| RepoUpdate.UpdateContents | DF_Final.py:251-256 | each new repository entry holds the content of a listed text whose move succeeded, and that text has left the extracted-text folder |
| RepoUpdate.UpdateMovesAll | DF_Final.py:235-256 | a text stays behind exactly when it was not listed or its move failed |
| RepoUpdate.UpdateSourcesDistinct | DF_Final.py:235-256 | no text is moved twice |
| Cleanup.CleanupOne | DF_Final.py:268-273 | one move of a leftover PDF on the file store does what `CleanupStep` describes |
| Cleanup.CleanupLoopExact | DF_Final.py:262-273 | only Main and Exception change; exactly the listed leftovers whose move succeeds leave Main and arrive in Exception with their content; everything else keeps its content |
| Cleanup.CleanupLeavesNoPdf | DF_Final.py:262-273 | when no move fails, Main ends with no `.pdf` name, and each of its PDFs is in Exception with its content |
| Pipeline.Unfold | DF_Final.py:309-314 | a complete run is the six stage specifications applied in order, each to the listings of the folders it starts from |
| Pipeline.UnfoldFirstThree | DF_Final.py:309-311 | the first three stages of a complete run |
| Pipeline.UnfoldLastThree | DF_Final.py:312-314 | the last three stages of a complete run |
| Pipeline.FitsPrefixes | DF_Final.py:309-314 | a complete run's first stages form complete shorter runs |
| Pipeline.ExtendRun | PyQt_Final.py:356-368 | running one more stage on a run's result extends that run |
| Pipeline.CompleteIsPartial | PyQt_Final.py:354-370 | a completed run is also a possible stopped run |
| Pipeline.OnlyEarlierListingsMatter | PyQt_Final.py:354-370 | the first n stages depend only on the listings those stages take |
| Pipeline.StageUsesOwnListings | DF_Final.py:309-314 | each stage depends only on its own listings |
| Pipeline.Step | PyQt_Final.py:356-368 | one more stage, with its own listings, extends a run |
| Pipeline.Fold | DF_Final.py:309-314 | six stages carried out in order, each over its own listings, make a complete run |
| Pipeline.RepositoryKeepsEntries | DF_Final.py:301-317 | a run never removes or changes an existing repository entry |
| Pipeline.DeduplicatedTextsDistinct | DF_Final.py:132-165 | when no read of a text fails, after local dedup any two `.txt` files of the batch have different fingerprints |
| Pipeline.ComparedTextsAreNew | DF_Final.py:168-221 | when no file operation of the comparison fails, after it every batch text is unchanged and has a fingerprint that no repository text has |
| Pipeline.NewEntrySource | DF_Final.py:251-256 | whatever moves fail, every new repository entry is the content of a `.txt` file of the extracted-text folder |
| Pipeline.UpdateAddsFreshEntries | DF_Final.py:235-256 | whatever moves fail, when the texts the update starts from are fresh and pairwise distinct, so are the repository entries they become |
| Pipeline.NoDuplicateEntersRepository | DF_Final.py:301-317 | when no file operation of de-duplication or comparison fails (those of extraction, update and cleanup may), a run keeps every old repository entry, and each new entry has a fingerprint that no old `.txt` entry has and no other new entry has |
| Pipeline.MainFolderEndsWithoutPdfs | DF_Final.py:262-273 | when no move out of the main folder fails during cleanup, a run ends with no PDF in it |
| DfFinal.CopyPdfsToMainFolder | DF_Final.py:40-72 | the folders and both counters end as the walk specification says, for the files visited |
| DfFinal.ExtractTexts | DF_Final.py:95-124 | the stage loops over a full listing of Main, and the folders end as `ExtractAll` over it says |
| DfFinal.DeduplicateTextFiles | DF_Final.py:132-165 | `files` is the `.txt` selection of the extracted-text folder, and the folders and `removed_count` end as `Dedup` over it says |
| DfFinal.CollectRepoHashes | DF_Final.py:171-179 | `repo_hashes` is the fingerprint set of all readable repository texts |
| DfFinal.ClassifyTexts | DF_Final.py:181-209 | the folders and both counters end as `Compare` over the texts says |
| DfFinal.CopyExceptionPdfs | DF_Final.py:212-218 | the loop runs over a full listing of Exception, and the folders end as `CopyExceptions` says |
| DfFinal.CrossCompareWithRepository | DF_Final.py:168-221 | the three listings are full listings of the folders they read, and the folders and counters end as `CrossCompare` says |
| DfFinal.UpdateRepository | DF_Final.py:224-259 | the listing is a full listing of the extracted-text folder, and the folders and `moved_count` end as `Update` says |
| DfFinal.CleanupMainPdfFolder | DF_Final.py:262-273 | `leftover_files` is the `.pdf` selection of Main, and the folders end as `CleanupLoop` says |
| DfFinal.RunPipeline | DF_Final.py:301-317 | `main` is a complete run: the store ends as `RunAll` says for the listings its stages took |
| PyQtFinal.StopEvent.constructor | PyQt_Final.py:392 | a new event is clear |
| PyQtFinal.StopEvent.Set | PyQt_Final.py:568-573 | after `set()` the flag is raised |
| PyQtFinal.StopEvent.IsSet | PyQt_Final.py:127 | a poll reports the flag; the other thread may have raised it since the last poll, and a raised flag stays raised |
| PyQtFinal.InvoicePipeline.constructor | PyQt_Final.py:104-115 | the pipeline keeps the given folders, stop event and extractor |
| PyQtFinal.InvoicePipeline.CopyPdfsToMainFolder | PyQt_Final.py:126-158 | the walk covers a prefix of the files, and the store and counters are the walk specification over that prefix; nothing is copied when the flag was already set; all files are covered when it stays clear |
| PyQtFinal.InvoicePipeline.ExtractTextFromPdf | PyQt_Final.py:160-176 | with the flag set the result is `("", None)`; otherwise it is the same extraction as the script's |
| PyQtFinal.InvoicePipeline.ExtractTexts | PyQt_Final.py:178-206 | the store is extraction over a prefix of the Main listing, with the last PDF treated as a failed extraction when the stop cut it; a cut implies the flag is raised; a full listing when the flag stays clear |
| PyQtFinal.InvoicePipeline.DeduplicateTextFiles | PyQt_Final.py:208-237 | the store and `removed_count` are dedup over a prefix of the `.txt` selection; the whole selection when the flag stays clear |
| PyQtFinal.InvoicePipeline.CollectRepoHashes | PyQt_Final.py:244-251 | `repo_hashes` is collected over a prefix of the repository listing; it is all readable repository fingerprints when the flag stays clear |
| PyQtFinal.InvoicePipeline.ClassifyTexts | PyQt_Final.py:255-276 | classification over a prefix of the texts; all of them when the flag stays clear |
| PyQtFinal.InvoicePipeline.CopyExceptionPdfs | PyQt_Final.py:277-284 | the Exception copy over a prefix of the Exception listing; the full listing when the flag stays clear |
| PyQtFinal.InvoicePipeline.CrossCompareWithRepository | PyQt_Final.py:239-286 | the stage specification over prefixes of its three listings; classification only starts after the whole repository listing was hashed, and the Exception copy only after every listed text was classified; nothing happens when the flag was already set; full listings when it stays clear |
| PyQtFinal.InvoicePipeline.UpdateRepository | PyQt_Final.py:288-315 | the update specification over a prefix of the extracted-text listing; the full listing when the flag stays clear |
| PyQtFinal.InvoicePipeline.CleanupMainPdfFolder | PyQt_Final.py:317-330 | the cleanup specification over a prefix of the leftover PDFs; all of them when the flag stays clear |
| PyQtFinal.InvoicePipeline.Perform | PyQt_Final.py:360-368 | calling stage n+1 extends a run of n stages, completely unless the flag ends up raised |
| PyQtFinal.InvoicePipeline.CopyThenCheck | PyQt_Final.py:357-358 | the copy stage followed by the poll is a one-stage run, complete when the poll finds the flag clear |
| PyQtFinal.InvoicePipeline.PerformThenCheck | PyQt_Final.py:359-366 | one further stage followed by the poll extends the run, completely when the poll finds the flag clear |
| PyQtFinal.InvoicePipeline.RunFrom | PyQt_Final.py:359-368 | the stages from n on, each followed by its poll, leave a run of more than n stages, all six when the flag stays clear |
| PyQtFinal.InvoicePipeline.RunFullPipeline | PyQt_Final.py:354-370 | every run, however it is stopped, leaves the store as the specifications of its first stages over prefixes of their listings, with only the last stage possibly cut short (a cut comparison classifies texts only against the full repository fingerprint set); with the flag clear throughout it is the same complete run as the script's `main`; with the flag set before the start nothing changes |
| PyQtFinal.CompleteOrStopped | PyQt_Final.py:354-370 | a run whose last stage completed or stopped is a possible stopped run |

## Left out

- The GUI, the log queue and its timer, `time` measurements, pandas DataFrames and CSV export (`list_files_as_dataframe` and the reports) are not part of this model. They only display what the stages did.
- `ensure_folders` is not modelled; the six folders always exist in the model.
- The real PDF text layer and OCR engines are parameters (`Extractor`: two functions from PDF content to an optional text), and their exceptions are their `None` results. The 30-character bar and the engine order are modelled exactly.
- SHA-256 is not modelled: the fingerprint is the normalised text itself. This is an injective stand-in, so two texts share a fingerprint exactly when their normal forms are equal, as the hash is taken to behave.
- `str.lower` is modelled for ASCII letters only. The whitespace set is Python's `str.isspace` set.
- File names are case-sensitive map keys. The case-insensitive folders of some file systems are not modelled.
- `os.walk` and the `has_subfolders` choice are flattened into the sequence of files the walk visits. Directories and other non-file entries are not modelled.
- Byte-level file contents, encodings and file metadata are not modelled; a file's content is a string.
- The clock: `datetime.now()` enters `update_repository` as a `Stamp` input (its three formatted parts).
- RepoNaming.Probe: requires a stamp whose base name contains `.txt` only at its end (`ValidStamp`). `%d%m%Y` and `%H%M%S` give digits only, and in the C locale `%b` gives a dot-free `Jan`…`Dec`; a dot-free stamp is valid (`DotFreeStampIsValid`). Other locales may put a dot into the month abbreviation (`janv.` in French), and such a stamp is still valid unless the abbreviation contains `.txt`, which no month abbreviation does. The same requirement is on `RepoUpdate.UpdateStep`, `DfFinal.UpdateRepository` and the drivers.
- LocalDedup.DedupStep: a failing read skips the file. A failure of the later `os.remove` or PDF move in the same `try` (one that leaves part of the iteration done) is not modelled.
- RepoCompare.ClassifyOne: the same holds in the classification loop. Only a failing read of the text is modelled.
- Intake.ProcessFile: only a failing `copy2` of a source path is modelled. A failing `os.listdir` of the source folder is not modelled.
- Every counter is only written to the log. The model keeps `pdf_count`, `other_count`, `removed_count`, `count_unique`, `count_duplicates` and `moved_count`, because their values state what a stage did. It leaves out `count_extracted` and `count_exception` of extraction, whose values follow from `ExtractionRouting`.
- A failing `os.listdir` of a stage's folder is not modelled: every listing in the model succeeds. These listings (DF_Final.py:101, 135, 173, 181, 212, 235, 263) sit outside any `try`. In the script such a failure ends `main()` with the exception. In the GUI version it ends the run through the `try`/`except` around `run_full_pipeline` (PyQt_Final.py:355-370), which is therefore not modelled either. Failures of single files are caught inside the stages and are modelled.
- Threads: the other thread's `set()` is modelled as the flag possibly rising at any poll (`StopEvent.IsSet`). A stop between a poll and the next file operation therefore takes effect at the next poll, as in the program.
- PyQtFinal.InvoicePipeline.Perform, CopyThenCheck, PerformThenCheck and RunFrom are proof structure: together they perform the same calls and polls, in the same order, as the straight-line body of `run_full_pipeline`.
- Behaviour one might expect but the code does not have:
  - In the copy stage, one `try` covers the whole walk (DF_Final.py:45-71), so the first failing copy ends it (`FailureAbortsWalk`). Copying is not per-file best effort.
  - Non-PDF source files do not reach Unique. The last loop of the comparison copies only `.pdf` names from Exception to Unique (DF_Final.py:212-218, `CopyExceptionsExact`), so they stay in Exception only.
  - No listing is sorted. The code uses `os.listdir` order, and every property here holds for any order.
