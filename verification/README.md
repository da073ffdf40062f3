# SPIMI indexer core in Dafny

A model of the sequential indexing core of a small single-pass in-memory
(SPIMI) indexer for document collections shipped as zip archives, with
proofs about it. The indexer reads every file of the archive as a document,
cuts its text into terms, numbers the terms in first-seen order in a
vocabulary, counts term frequencies per document in blocks of a fixed token
budget, writes each block to a text file, merges the block files through a
priority queue of readers, and writes the merged document-term matrix as two
sparse ARFF files (raw term frequencies and idf weights) together with a
statistics file about the collection.

The model has one module per part of that pipeline:

- `OrderedMap`: Java's `LinkedHashMap` as a sequence of key/value pairs with distinct keys.
- `VocabularyEntry`, `Vocabulary`: dense term ids and document and collection frequencies.
- `DocumentTermList`, `DocumentTermMatrix`: per-document term counts, thresholds, sorting by term id.
- `PostingsList`, `Dictionary`: the older term-to-postings index, its sorted-term cache and its text file.
- `Orderings`: the `compareTo` methods of the block-file entries and the readers' priority-queue comparator.
- `BlockFormat`, `BlockWriter`, `BlockReader`, `BlockRoundTrip`, `BlockFiles`: the block-file line format, the buffered writers (a 1024-char array flushed with headroom), the chunk-driven readers with their two-entry lookahead, and the round trip between them.
- `Tokenizer`, `TokenStream`: the term-boundary rules of the zip token stream, document numbering and the stream's lookahead.
- `Documents`: the category and name taken from an archive path.
- `BlockIndexer`: the first pass (vocabulary and statistics) and the second pass (blocks and their matrices).
- `BlockMerge`: the merge of the block files on the single-reader path, its flushes and the final statistics update.
- `ArffWriter`: the ARFF header and the sparse records stitched across parts.
- `CollectionStatistics`: the `key=value` statistics file, written and read back.
- `SizedPriorityQueue`: the bounded sorted-insertion list of the retrieval side.
- `Text`, `Wrappers`: Java string and integer helpers; `Option` for a reference that may be null and `Result` for a call that may throw.

Everything is a pure function over sequences and strings. Files and streams
are replaced by their contents: an archive is a sequence of entries, each
with the chunks its reader delivers; a block file is the sequence of chunks
the reader receives; a writer's output is the concatenation of the chunks it
hands to the file. Java exceptions are `Failure` values naming the exception.
The text of a float and its parser are parameters, and so is the printed form
of a `double` in the statistics file. Java's 32-bit arithmetic is written out
where the program depends on it (the memory estimate of a postings list and
the ARFF column number); other counts are unbounded.

Two places where the natural reading differs from the code, and the model
follows the code:

- `readFromFile` of the statistics loops on `Scanner.hasNext()` but reads with
  `nextLine()`. The two disagree only on a remainder made of whitespace, and
  such a line holds no `=`, so it would be skipped anyway;
  `CollectionStatistics.Read` reads lines until the text is used up.
- The term rules never accept a run that reaches the end of the buffer, so the
  stream's end-of-document branch is never taken and the last word of a
  document with no delimiter after it is lost. The whole model (the stream,
  both passes and the merge) uses the rule as written; the intended rule is
  kept beside it (see Findings).

## Model

| member | source | states |
|---|---|---|
| VocabularyEntry.New | src/dao/VocabularyEntry.java:16-22 | a new entry carries the given term id and last document, with document and collection frequency 1 |
| VocabularyEntry.SetDocFreq | src/dao/VocabularyEntry.java:24-27 | only the document frequency changes, to the given value |
| VocabularyEntry.SetCollectionFreq | src/dao/VocabularyEntry.java:30-33 | only the collection frequency changes, to the given value |
| VocabularyEntry.IncreaseDocFrequency | src/dao/VocabularyEntry.java:61-68 | the document frequency rises by one exactly when the id differs from the last document, the last document becomes the id, term id and collection frequency stay |
| VocabularyEntry.IncreaseCollectionFrequency | src/dao/VocabularyEntry.java:70-73 | the collection frequency rises by exactly one and no other field changes |
| VocabularyEntry.IncreaseDocFrequencyIdempotent | src/dao/VocabularyEntry.java:55-68 | a second call with the same document id changes nothing |
| VocabularyEntry.RepeatedDocRaisesOnce | src/dao/VocabularyEntry.java:55-68 | any number of calls with one document id raise the document frequency at most once |
| VocabularyEntry.TermIDFixed | src/dao/VocabularyEntry.java:9-22 | no sequence of setter and increase calls changes the term id fixed at construction |
| VocabularyEntry.ReplayCounts | src/dao/VocabularyEntry.java:16-22 | an entry created in the first of a run of documents and raised once per further occurrence has collection frequency = number of occurrences and document frequency = 1 + number of document changes |
| Vocabulary.Empty | src/dao/Vocabulary.java:20-29 | a new vocabulary is valid, empty and not finalized |
| Vocabulary.SetTotalNumberOfDocuments | src/dao/Vocabulary.java:35-38 | only the document count changes |
| Vocabulary.Get | src/dao/Vocabulary.java:147-150 | `get(term)` answers an entry exactly for a term that is in the vocabulary |
| Vocabulary.GetTermID | src/dao/Vocabulary.java:93-97 | in a valid vocabulary a term's entry carries the term's insertion position as its id |
| Vocabulary.Add | src/dao/Vocabulary.java:75-98 | an unseen term gets a new entry with the next id, frequencies 1 and the document as last document, appended to the key order; a known term gets one more occurrence and one more document only if the document differs, keeping the key order; every other term is untouched and validity is kept |
| Vocabulary.AddSilent | src/dao/Vocabulary.java:100-116 | a known term leaves the vocabulary as it was; an unseen term takes the next id with both frequencies 0 and last document -1 |
| Vocabulary.Finalize | src/dao/Vocabulary.java:53-56 | the entries are kept and lookups by id are enabled for the ids present now |
| Vocabulary.GetById | src/dao/Vocabulary.java:159-167 | null before `finalize`; afterwards the entry whose id is the argument, and an IndexOutOfBounds failure exactly for ids outside the finalized range |
| Vocabulary.AddAllShape | src/dao/Vocabulary.java:75-98 | adding a token stream to an empty vocabulary keeps it valid and its keys are the distinct terms in first-seen order, so the ids are 0 to size-1 |
| Vocabulary.AddAllLookup | src/dao/Vocabulary.java:75-98 | after a token stream, `get(term)` is null exactly for a term that never occurred, and otherwise the entry its occurrences produce one by one |
| Vocabulary.AddAllTermID | src/dao/Vocabulary.java:93-95 | a term's id is its position among the distinct terms in first-seen order |
| Vocabulary.CountsOfSortedStream | src/dao/Vocabulary.java:58-98 | for tokens arriving document by document, the collection frequency is the number of occurrences and the document frequency the number of distinct documents the term occurs in |
| Vocabulary.OpsKeepIdsDense | src/dao/Vocabulary.java:22 | any mix of `add` and `addSilent` keeps the entry at position i carrying id i and the id counter equal to the size |
| DocumentTermList.TermFrequency | src/dao/DocumentTermList.java:108-112 | the stored value of a present term id, 0 for an absent one |
| DocumentTermList.AddValue | src/dao/DocumentTermList.java:60-72 | an absent term id is appended with the value, a present one keeps its place and its value grows by the value; no other term changes |
| DocumentTermList.AddTerm | src/dao/DocumentTermList.java:40-52 | the term's frequency grows by one (from 0 for an absent id, which is appended); no other term changes and the key order is kept |
| DocumentTermList.AddTermsCounts | src/dao/DocumentTermList.java:40-52 | a row built from a run of term ids holds each term id exactly when it occurs, with its number of occurrences |
| DocumentTermList.Clear | src/dao/DocumentTermList.java:118-121 | the row is empty and every frequency reads 0 |
| DocumentTermList.ApplyTfThresholds | src/dao/DocumentTermList.java:130-145 | the kept entries are a subsequence of the row (relative order kept) and the returned count is the number of entries removed |
| DocumentTermList.ApplyTfThresholdsKeeps | src/dao/DocumentTermList.java:130-145 | an entry survives exactly when its value lies strictly between the low and the high threshold |
| DocumentTermList.SortTermsByID | src/dao/DocumentTermList.java:151-169 | the same term-to-value mapping with term ids strictly ascending |
| DocumentTermList.CalculateIdfs | src/dao/DocumentTermList.java:176-197 | only the values change: the term ids and their order stay, each new value computed from the entry's term id and old value |
| DocumentTermMatrix.Clear | src/dao/DocumentTermMatrix.java:31-34 | no document has a row and the number of documents is 0 |
| DocumentTermMatrix.AddDoc | src/dao/DocumentTermMatrix.java:44-57 | a known document gives back its row with the matrix unchanged; a new one gets an empty row appended at the end; the number of documents grows exactly for a new document |
| DocumentTermMatrix.AddDocIdempotent | src/dao/DocumentTermMatrix.java:44-57 | adding a document a second time changes nothing |
| DocumentTermMatrix.SortTermListingsByID | src/dao/DocumentTermMatrix.java:64-75 | every row is sorted by term id with its mapping kept; the documents and their order stay |
| DocumentTermMatrix.ApplyTfThresholds | src/dao/DocumentTermMatrix.java:124-133 | every row is thresholded, the documents stay, and the returned total is the number of entries that vanished over all rows |
| DocumentTermMatrix.CalculateIdfs | src/dao/DocumentTermMatrix.java:103-114 | every row's values are replaced while the documents and each row's term ids stay in place |
| PostingsList.TermFrequency | src/dao/PostingsList.java:110-113 | the stored frequency of a present document, 0 for an absent one |
| PostingsList.AddTf | src/dao/PostingsList.java:51-62 | the document's frequency grows by the given amount (an absent document is appended), every other posting stays, and the total term frequency grows by the same amount |
| PostingsList.AddDoc | src/dao/PostingsList.java:28-40 | the document's frequency grows by one, from 0 for an absent document, which is appended; every other posting stays |
| PostingsList.AddTfDocumentFrequency | src/dao/PostingsList.java:51-62 | the document frequency grows by one exactly when the document was not yet in the list |
| PostingsList.Clear | src/dao/PostingsList.java:127-130 | document frequency and total term frequency are both 0 |
| PostingsList.PutTotals | src/dao/PostingsList.java:115-121 | the total term frequency is the sum of the per-document frequencies: a put replaces the document's old frequency in it |
| PostingsList.ToString | src/dao/PostingsList.java:132-157 | the text is empty exactly for an empty list |
| PostingsList.HighestOneBit | src/dao/PostingsList.java:94 | 0 for 0, otherwise the power of two c with c <= n < 2c |
| PostingsList.AllocatedSizeBounds | src/dao/PostingsList.java:87-101 | below 2^26 postings the estimate is 16 for an empty list and 16c for the power of two c with n < c <= 2n |
| PostingsList.AllocatedSizeOverflows | src/dao/PostingsList.java:94-100 | from 2^26 postings on, the 32-bit result differs from the exact 32 * highestOneBit(n) |
| Dictionary.Empty | src/dao/Dictionary.java:23-29 | a new dictionary is valid, has no terms and no cached sorted list |
| Dictionary.GetPostingsList | src/dao/Dictionary.java:48-57 | a postings list exactly for a term that was added, null otherwise |
| Dictionary.AddTerm | src/dao/Dictionary.java:31-46 | a known term's list is returned with nothing changed; an unknown term is stored with a fresh empty list; no other term changes |
| Dictionary.SortTerms | src/dao/Dictionary.java:60-65 | the cached list holds every term of the map exactly once, in strictly ascending `compareTo` order |
| Dictionary.GetTerms | src/dao/Dictionary.java:94-99 | the first call sorts and caches; later calls return the cached list unchanged |
| Dictionary.GetTermsFresh | src/dao/Dictionary.java:94-99 | before any caching, `getTerms` lists exactly the dictionary's terms, sorted |
| Dictionary.GetTermsStale | src/dao/Dictionary.java:60-99 | a term added after the list was cached is missing from `getTerms` although the dictionary holds it, and a new `sortTerms` lists it |
| Dictionary.AddTermsKeys | src/dao/Dictionary.java:31-46 | after adding a stream of terms, the dictionary's terms are exactly the distinct terms of the stream |
| Dictionary.NumberOfTermsCountsDistinct | src/dao/Dictionary.java:90-92 | `getNumberOfTerms` after a stream of `addTerm` calls is the number of distinct terms in it |
| Dictionary.WriteToDisk | src/dao/Dictionary.java:67-88 | without a cached list the loop fails on null; otherwise the text is one `term\t<postings>\n` line per selected term, in the cached order |
| Dictionary.SelectedTerms | src/dao/Dictionary.java:75-83 | a cached term is written exactly when its number of postings lies strictly between the thresholds, and the written terms keep the sorted order |
| Dictionary.WriteAfterSort | src/dao/Dictionary.java:60-88 | after `sortTerms`, the file lists exactly the dictionary's terms whose postings size lies strictly between the thresholds, in ascending order |
| OrderedMap.Get | src/dao/DocumentTermList.java:42 | `LinkedHashMap.get`: a value exactly for a present key, the one stored with it |
| OrderedMap.Put | src/dao/DocumentTermList.java:45-49 | `LinkedHashMap.put`: a present key keeps its position, a new key goes last; the key reads the new value and every other key reads what it did |
| OrderedMap.SortByKeySorted | src/dao/DocumentTermList.java:153-160 | sorting a map with distinct keys by key gives strictly ascending keys |
| OrderedMap.SortByKeyKeepsMapping | src/dao/DocumentTermList.java:162-167 | rebuilding the map from the sorted entries keeps every key's value |
| Orderings.IntCompare | src/dao/DocumentTermMatrixFileEntry.java:23 | `Integer.compare`: -1, 0 or 1, negative exactly when the first is smaller and 0 exactly when they are equal |
| Orderings.StringCompareTo | src/dao/PostingsListEntry.java:17 | `String.compareTo`: 0 exactly for equal strings, negative exactly when the first comes first lexicographically (a proper prefix first) |
| Orderings.StringCompareToAntisymmetric | src/dao/PostingsListEntry.java:17 | swapping the strings negates the result |
| Orderings.LexLessTransitive | src/dao/PostingsListEntry.java:17 | the string order is transitive |
| Orderings.SortStrings | src/dao/Dictionary.java:63-64 | `Collections.sort` of the terms: a permutation of its input |
| Orderings.SortStringsSorted | src/dao/Dictionary.java:63-64 | sorting distinct strings gives a strictly ascending sequence |
| Orderings.CompareMatrixEntries | src/dao/DocumentTermMatrixFileEntry.java:20-31 | different documents are ordered by document id, equal documents by term id |
| Orderings.MatrixEntryOrder | src/dao/DocumentTermMatrixFileEntry.java:20-31 | the result is negative exactly in lexicographic `(docID, termID)` order, 0 exactly when both ids agree (the value is ignored), and swapping negates it |
| Orderings.MatrixEntryTransitive | src/dao/DocumentTermMatrixFileEntry.java:20-31 | the order is transitive, strictly so when one step is strict |
| Orderings.ComparePostingEntries | src/dao/PostingsListEntry.java:14-25 | different terms are ordered by `String.compareTo`, equal terms by document id |
| Orderings.PostingEntryOrder | src/dao/PostingsListEntry.java:14-25 | negative exactly in lexicographic `(term, docID)` order, 0 exactly when both agree (the frequency is ignored), antisymmetric |
| Orderings.PostingEntryTransitive | src/dao/PostingsListEntry.java:14-25 | the `(term, docID)` order is transitive |
| Orderings.CompareQueued | src/indexing/PriorityQueueTermReaderComparator.java:12-28 | the order of the current entries; on a tie the smaller reader number first; never 0 |
| Orderings.CompareQueuedSelf | src/indexing/PriorityQueueTermReaderComparator.java:16-25 | a reader compared with itself answers 1 |
| Orderings.QueuedMatrixOrder | src/indexing/PriorityQueueTermReaderComparator.java:13-28 | for matrix readers with different numbers the comparator is the lexicographic `(docID, termID, number)` order, and antisymmetric |
| BlockFormat.TerminatedIsJoin | src/dao/Dictionary.java:75-83 | a text with a line break after every line is the lines joined by single breaks plus one final break |
| BlockWriter.FillChunk | src/indexing/BufferedBlockMatrixWriter.java:100-122 | the fill loop stages a prefix of the entries, in order, and stops only when the limit is reached or nothing is left; it cannot overrun the array when every entry fits the headroom |
| BlockWriter.WriteEntries | src/indexing/BufferedBlockMatrixWriter.java:98-125 | the text written plus the text left staged is the text before followed by all entry texts in order; with entries left to write the array ends up empty |
| BlockWriter.WriteEntriesFits | src/indexing/BufferedBlockMatrixWriter.java:100-121 | when every entry text fits the headroom the loop leaves, the array is never overrun |
| BlockWriter.WriteEntriesChunks | src/indexing/BufferedBlockMatrixWriter.java:123-124 | no chunk handed to the file writer is longer than the 1024-char array |
| BlockWriter.WriteRowStaged | src/indexing/BufferedBlockMatrixWriter.java:84-132 | a row adds its id, tab and entries to the text, and leaves exactly a line break staged when it has entries |
| BlockWriter.WriteRowsLastBreak | src/indexing/BufferedBlockMatrixWriter.java:126-131 | when the last row has entries, exactly one line break is left staged, and `close` never writes it |
| BlockWriter.WriteRowsChunks | src/indexing/BufferedBlockMatrixWriter.java:123 | every chunk of the matrix file is at most 1024 chars |
| BlockWriter.WriteMatrixText | src/indexing/BufferedBlockMatrixWriter.java:76-136 | for rows that all have entries the file is the `docID\t<termID:value>...` records joined by single line breaks, with no break after the last |
| BlockWriter.WriteRowsFits | src/indexing/BufferedBlockMatrixWriter.java:98-124 | with int ids and value texts of at most 15 chars, no staging runs past the 1024-char array |
| BlockWriter.WriteMatrixFits | src/indexing/BufferedBlockMatrixWriter.java:76-136 | such a matrix is always written, and its file is the joined records |
| BlockWriter.EmptyRowGlued | src/indexing/BufferedBlockMatrixWriter.java:94-132 | a row without entries leaves `docID\t` staged, so the next record is glued onto it in the file |
| BlockWriter.TermsWithPostings | src/indexing/BufferedBlockDictionaryWriter.java:82-85 | each listed term paired with the postings list the dictionary holds for it, in list order |
| BlockWriter.WriteDictionary | src/indexing/BufferedBlockDictionaryWriter.java:70-131 | the dictionary comes back as `getTerms` leaves it (sorted and cached on the first call) |
| BlockWriter.WriteTermStaged | src/indexing/BufferedBlockDictionaryWriter.java:87-125 | a term with postings writes its record after what was staged and leaves one line break staged; a term without postings writes nothing |
| BlockWriter.WriteTermsText | src/indexing/BufferedBlockDictionaryWriter.java:82-128 | the file is each term with postings as `term\t<docID:tf>...`, each preceded by a line break unless it is the very first text written |
| BlockWriter.WriteTermsChunks | src/indexing/BufferedBlockDictionaryWriter.java:121-122 | every chunk of the dictionary file is at most 1024 chars |
| BlockWriter.DictionaryTextJoin | src/indexing/BufferedBlockDictionaryWriter.java:82-128 | when every term has postings, the records are joined by single line breaks |
| BlockWriter.WriteDictionaryText | src/indexing/BufferedBlockDictionaryWriter.java:70-131 | when every term has postings, the file is the `getTerms` records joined by line breaks, each postings part being the list's `toString` |
| BlockWriter.EntriesTextIsToString | src/dao/PostingsList.java:132-157 | the writer's postings text is exactly `PostingsList.toString` |
| BlockWriter.LeadingBreak | src/indexing/BufferedBlockDictionaryWriter.java:124-125 | a first term without postings leaves a line break at the very start of the file |
| BlockReader.TabOf | src/indexing/BufferedBlockMatrixReader.java:112-116 | the first tab's index, or `Integer.MAX_VALUE` when there is no tab |
| BlockReader.Load | src/indexing/BufferedBlockMatrixReader.java:100-121 | loading moves text from the stream into the buffer without losing or adding any; afterwards the buffer holds an entry's delimiters exactly when the remaining text does, and otherwise the stream is used up |
| BlockReader.Prepare | src/indexing/BufferedBlockMatrixReader.java:94-176 | an entry consumes text; the end of the stream consumes none |
| BlockReader.ExhaustedAbsorbs | src/indexing/BufferedBlockMatrixReader.java:109-129 | once `prepareNextEntry` has returned null it returns null again and changes nothing |
| BlockReader.Next | src/indexing/BufferedBlockMatrixReader.java:188-197 | `next` returns the cached entry and moves the second cached entry up |
| BlockReader.ReadAllDrains | src/indexing/BufferedBlockMatrixReader.java:188-215 | calling `next` while `hasNext` holds returns the cached entries, then exactly what `prepareNextEntry` yields, and stops with the same exception |
| BlockReader.PrimeDrains | src/indexing/BufferedBlockMatrixReader.java:77-82 | caching the first two entries in the constructor changes nothing about what the reader returns |
| BlockReader.ReadFileProduces | src/indexing/BufferedBlockMatrixReader.java:45-82 | over a whole file, too, the cache changes nothing |
| BlockRoundTrip.ReadFileRoundTrip | src/indexing/BufferedBlockMatrixReader.java:45-176 | a block file of well-formed records, delivered as decoded chunks whose concatenation is the file and whose first chunk holds the first key's tab, is read back as every entry of every record, in file order, each with its key |
| BlockFiles.MatrixRoundTrip | src/indexing/BufferedBlockMatrixWriter.java:76-136 | the matrix reader reads back the matrix writer's file as every (document, term, value) entry, row by row in order |
| BlockFiles.DictionaryRoundTrip | src/indexing/BufferedBlockDictionaryWriter.java:70-131 | when the decoded reads concatenate to the written file (always for ASCII terms), the dictionary reader reads it back as every (term, document, frequency) posting, term by term in `getTerms` order |
| BlockFiles.DictionaryFile | src/indexing/BufferedBlockDictionaryWriter.java:82-128 | the dictionary file is the block of the written terms |
| Documents.PathParts | src/dao/Document.java:17 | the parts of a path split at `/`; no part contains `/` |
| Documents.NewDocument | src/dao/Document.java:14-20 | the id is kept as given, category and name are `/`-free parts of the path, and the only failure is ArrayIndexOutOfBounds |
| Documents.NewDocumentSucceeds | src/dao/Document.java:17-19 | construction succeeds exactly when some part from the third on is non-empty, that is, when `split` (which drops trailing empty parts) leaves at least three |
| Documents.NewDocumentOfPath | src/dao/Document.java:14-20 | for `root/category/name` (optionally followed by `/...`) the category and name are the second and third parts |
| Documents.ShortPathFails | src/dao/Document.java:17-18 | a path with no `/` or with one `/` fails |
| Documents.EmptyNameFails | src/dao/Document.java:17-18 | `root/category/` fails, because its trailing empty part is dropped |
| Tokenizer.ToLower | src/indexing/ZipTokenStream.java:284 | the result is never upper case, a letter stays a letter and a non-letter stays a non-letter, and a char that is not upper case is unchanged |
| Tokenizer.Lower | src/indexing/ZipTokenStream.java:284 | the same length, with each char lower-cased on its own |
| Tokenizer.EndScanFirst | src/indexing/ZipTokenStream.java:594-646 | the scan stops at the first position that does not continue the term |
| Tokenizer.EndOfNextTerm | src/indexing/ZipTokenStream.java:578-646 | -1, or a position after the start that does not continue the term |
| Tokenizer.EndOfNextTermSpec | src/indexing/ZipTokenStream.java:578-646 | -1 exactly for an empty buffer, a negative start, or a run that continues to the end of the buffer; otherwise the first position after the start that does not continue the term |
| Tokenizer.TermEnd | src/indexing/ZipTokenStream.java:239-268 | as written (`last` false) it is `getEndOfNextTerm`; with `last` true a term starting inside the buffer always ends, at the latest at the buffer's end |
| Tokenizer.TermEndOpen | src/indexing/ZipTokenStream.java:594-642 | a term whose run reaches the end of the buffer has no end as written, and ends at the buffer's end when the end closes it |
| Tokenizer.BeginningOfNextTerm | src/indexing/ZipTokenStream.java:490-572 | -1, or a position from the offset on that holds a letter whose term is longer than three chars |
| Tokenizer.BeginningOfNextTermSpec | src/indexing/ZipTokenStream.java:490-572 | the first accepted position from the offset on, and -1 exactly when there is none |
| Tokenizer.NextTermSpec | src/indexing/ZipTokenStream.java:170-303 | a term is found exactly when some position from the offset on is accepted; it is well formed (at least four chars, starting with a letter, lower case) and the search resumes after it |
| Tokenizer.ChunkTermsWellFormed | src/indexing/ZipTokenStream.java:170-303 | every term taken from a buffer is well formed |
| Tokenizer.SpacedTerms | src/indexing/ZipTokenStream.java:490-646 | blank-separated words of letters give exactly the words longer than three letters, lower-cased, in order |
| Tokenizer.FinalWordDropped | src/indexing/ZipTokenStream.java:515-531 | as written, a buffer of blank-separated words ending in a word without a blank loses that final word, however long it is |
| Tokenizer.FinalWordKept | src/indexing/ZipTokenStream.java:257-260 | when the buffer's end closes the last term, the final word is kept like every other |
| Tokenizer.WordWordExample | src/indexing/ZipTokenStream.java:515-531 | "word word" gives ["word"] as written and ["word", "word"] when the buffer's end closes the last term |
| TokenStream.DocumentTermsWellFormed | src/indexing/ZipTokenStream.java:170-303 | every term of a document is well formed |
| TokenStream.DocumentLastWordDropped | src/indexing/ZipTokenStream.java:515-531 | a document whose text ends in a word with nothing after it yields the long words before it and not that word |
| TokenStream.OpenDocuments | src/indexing/ZipTokenStream.java:422-471 | opening succeeds exactly when every non-directory entry has a name part; then there is one document per non-directory entry (empty ones included), numbered consecutively after the last id |
| TokenStream.DocumentTokens | src/indexing/ZipTokenStream.java:299 | one token per term of the document, in order, each carrying the document |
| TokenStream.TokensOrdered | src/indexing/ZipTokenStream.java:469-470 | the tokens of consecutively numbered documents carry ids in the documents' range, never decreasing, with well-formed terms |
| TokenStream.StreamDocumentIds | src/indexing/ZipTokenStream.java:469-470 | because `DOC_ID` restarts at 0, a stream's tokens carry ids from 1 to the number of non-directory entries, never decreasing |
| TokenStream.Prepare | src/indexing/ZipTokenStream.java:170-233 | `null` exactly when no token is left; otherwise the first pending token, with the rest still pending |
| TokenStream.Initialize | src/indexing/ZipTokenStream.java:133-141 | caching the first two tokens loses none: the tokens still to be returned are exactly the stream's tokens |
| TokenStream.Next | src/indexing/ZipTokenStream.java:306-366 | `next` returns the current token and the tokens still to be returned are the rest; after `null` nothing remains |
| TokenStream.HasNextRemaining | src/indexing/ZipTokenStream.java:370-373 | `hasNext` holds exactly when tokens remain, and `current` is the first of them |
| TokenStream.DrainRemaining | src/indexing/ZipTokenStream.java:306-373 | calling `next` while `hasNext` holds returns exactly the tokens still to be returned |
| TokenStream.DrainInitialized | src/indexing/ZipTokenStream.java:306-373 | an initialised stream hands out every token of the archive, in order |
| CollectionStatistics.Assign | src/dao/CollectionStatistics.java:165-190 | the field the key names takes the parsed value; an unknown key or a value that raises NumberFormatException changes nothing; no other field ever changes, and the field widths are kept |
| CollectionStatistics.LineEnd | src/dao/CollectionStatistics.java:151 | the first line break at or after the position, or the end of the text |
| CollectionStatistics.ScannerLines | src/dao/CollectionStatistics.java:149-151 | the lines `nextLine` hands out contain no line break |
| CollectionStatistics.ScannerLinesCons | src/dao/CollectionStatistics.java:151 | a line followed by `\n`, `\r\n` or another single break is handed out first, without its break |
| CollectionStatistics.ScannerLinesTerminated | src/dao/CollectionStatistics.java:149-151 | lines without breaks, each followed by `\n`, come back exactly |
| CollectionStatistics.ApplyLineIgnored | src/dao/CollectionStatistics.java:152-161 | a comment line or a line without `=` changes nothing |
| CollectionStatistics.ApplyLineSetting | src/dao/CollectionStatistics.java:157-163 | for a non-comment line the key is everything before the first `=` and the value everything after it |
| CollectionStatistics.ApplyLinesAppend | src/dao/CollectionStatistics.java:149-191 | applying two runs of lines is applying their concatenation |
| CollectionStatistics.ReadWithoutSettings | src/dao/CollectionStatistics.java:144-191 | a file without a setting line reads as every field -1, whatever the object held before |
| CollectionStatistics.ReadEmpty | src/dao/CollectionStatistics.java:144-147 | an empty file reads as every field -1 |
| CollectionStatistics.WriteSplit | src/dao/CollectionStatistics.java:118-123 | the scanner hands out exactly the six written lines |
| CollectionStatistics.ApplyDocuments | src/dao/CollectionStatistics.java:167-170 | the written `numberOfDocuments` line of any int sets exactly that field to it |
| CollectionStatistics.ApplyTokens | src/dao/CollectionStatistics.java:171-174 | the written `numberOfTokens` line of any long sets exactly that field to it |
| CollectionStatistics.ApplyUniqueTerms | src/dao/CollectionStatistics.java:175-178 | the written `numberOfUniqueTerms` line of any int sets exactly that field to it |
| CollectionStatistics.ApplyAverage | src/dao/CollectionStatistics.java:179-182 | the written `averageDocumentLength` line sets that field to what its text parses to, and changes nothing when it does not parse |
| CollectionStatistics.ReadRoundTrip | src/dao/CollectionStatistics.java:112-191 | reading what `writeToFile` wrote restores the three counters; the average comes back whenever `Double.parseDouble` inverts `Double.toString` on it, and otherwise stays -1 |
| SizedPriorityQueue.Insert | src/retrieval/SizedPriorityQueue.java:110-111 | `LinkedList.add(index, x)`: x sits at the index, the entries before it are unchanged and the rest move back by one |
| SizedPriorityQueue.AddWithPriority | src/retrieval/SizedPriorityQueue.java:93-119 | never fails on an aligned queue, and keeps the size, the flag and the comparator |
| SizedPriorityQueue.Add | src/retrieval/SizedPriorityQueue.java:63-84 | without a comparator it throws RuntimeException; with one it never fails and leaves the priorities and the size alone |
| SizedPriorityQueue.Pop | src/retrieval/SizedPriorityQueue.java:126-131 | fails exactly on an empty list; otherwise it returns the head value and removes it, and removes the head priority of an aligned queue |
| SizedPriorityQueue.Poll | src/retrieval/SizedPriorityQueue.java:138-141 | null exactly for an empty list |
| SizedPriorityQueue.PriorityIndexFirst | src/retrieval/SizedPriorityQueue.java:97-106 | the insertion index is the first position whose `val - priority` stops the scan: every priority before it, equal ones included, stays ahead of the newcomer |
| SizedPriorityQueue.ValueIndexFirst | src/retrieval/SizedPriorityQueue.java:68-77 | the comparator scan stops at the first value it compares below (with `getLowest`) or above the newcomer, and passes every other |
| SizedPriorityQueue.AddBelowBounded | src/retrieval/SizedPriorityQueue.java:108-118 | an aligned queue within its bound stays aligned and within its bound |
| SizedPriorityQueue.AddBelowOrdered | src/retrieval/SizedPriorityQueue.java:97-118 | the priorities stay ordered: non-increasing with `getLowest`, non-decreasing without |
| SizedPriorityQueue.AddBelowPlaces | src/retrieval/SizedPriorityQueue.java:108-118 | below the bound the newcomer lands at its scan index with the entries ahead of it unchanged and the rest shifted back; otherwise nothing changes |
| SizedPriorityQueue.PopKeeps | src/retrieval/SizedPriorityQueue.java:126-131 | `pop` keeps the lists aligned and the priorities ordered |
| SizedPriorityQueue.PollThenPop | src/retrieval/SizedPriorityQueue.java:126-141 | `poll` shows the value the next `pop` returns |
| SizedPriorityQueue.LastSlotDropped | src/retrieval/SizedPriorityQueue.java:108 | as written, with `size - 1` entries a newcomer that belongs at the end is dropped although there is room |
| SizedPriorityQueue.SizeOneStaysEmpty | src/retrieval/SizedPriorityQueue.java:108 | as written, a queue of size one never takes a value |
| SizedPriorityQueue.AddWithPriorityCorrected | src/retrieval/SizedPriorityQueue.java:93-119 | with the bound `size` the addition still never fails and keeps the size, flag and comparator |
| SizedPriorityQueue.CorrectedKeepsBest | src/retrieval/SizedPriorityQueue.java:93-119 | with the bound `size`, the priorities are the first `size` of the ordered list of all old priorities and the newcomer's, which is a permutation of them |
| SizedPriorityQueue.CorrectedSizeOneTakes | src/retrieval/SizedPriorityQueue.java:20-28 | with the bound `size`, a queue of size one holds the value added to it |
| SizedPriorityQueue.GetLowestKeepsHighest | src/retrieval/SizedPriorityQueue.java:93-119 | as written, a size-2 queue that should track the lowest values, given priorities 1, 2 and 3, keeps 3 and 2 |
| SizedPriorityQueue.AddIntended | src/retrieval/SizedPriorityQueue.java:93-119 | the documented addition (`priority - val`, bound `size`) never fails on an aligned queue and keeps the size, flag and comparator |
| SizedPriorityQueue.IntendedKeepsTracked | src/retrieval/SizedPriorityQueue.java:20-28 | the documented queue holds the first `size` of all old priorities and the newcomer's, ordered from the tracked end; with `getLowest` no dropped priority is lower than a kept one, otherwise none is higher |
| SizedPriorityQueue.IntendedKeepsLowestExample | src/retrieval/SizedPriorityQueue.java:25-27 | the same three additions to the documented queue leave 1 and 2 |
| SizedPriorityQueue.AddBounded | src/retrieval/SizedPriorityQueue.java:79-83 | with a comparator, the value list stays within the bound |
| SizedPriorityQueue.AddPlaces | src/retrieval/SizedPriorityQueue.java:63-84 | the newcomer lands at the comparator's scan index when that is below `size - 1`, with the entries ahead of it unchanged; otherwise the list is unchanged |
| ArffWriter.Wrap32 | src/indexing/BufferedArffMatrixWriter.java:202 | the result is a Java int, and an int is left as it is |
| ArffWriter.Attributes | src/indexing/BufferedArffMatrixWriter.java:91-107 | three leading attributes, then one `@ATTRIBUTE term NUMERIC` per vocabulary term, in vocabulary order |
| ArffWriter.TermColumn | src/indexing/BufferedArffMatrixWriter.java:202 | the column a term's id is written to, shifted past the three leading attributes, is that term's own attribute |
| ArffWriter.InitOutput | src/indexing/BufferedArffMatrixWriter.java:64-110 | after `init` the file holds exactly the header |
| ArffWriter.WriteCells | src/indexing/BufferedArffMatrixWriter.java:196-239 | a term loop over cells leaves the array empty, and one over no cells changes nothing |
| ArffWriter.WriteCellsText | src/indexing/BufferedArffMatrixWriter.java:196-239 | a term loop writes everything staged and every cell, except the trailing comma it takes back |
| ArffWriter.WriteCellsFits | src/indexing/BufferedArffMatrixWriter.java:198-224 | non-empty cells that fit the room the fill loop leaves never make the term loop fail |
| ArffWriter.Lookup | src/indexing/BufferedArffMatrixWriter.java:165 | `documents.get(key)` succeeds exactly for a known document, with its entry; otherwise a null pointer |
| ArffWriter.OpenRecord | src/indexing/BufferedArffMatrixWriter.java:141-179 | the head `{0 docID,1 class,2 name,` is staged, after `}\n` where the previous record is closed, exactly when the document is known |
| ArffWriter.Stitch | src/indexing/BufferedArffMatrixWriter.java:181-191 | a continued record ends with exactly one separating comma, added unless one is already staged |
| ArffWriter.WriteTermList | src/indexing/BufferedArffMatrixWriter.java:129-241 | the document becomes the active one, and a list with cells leaves the array empty |
| ArffWriter.WriteNextPart | src/indexing/BufferedArffMatrixWriter.java:118-242 | an empty part raises NoSuchElementException; otherwise the part's last document is the active one |
| ArffWriter.EmptyTermListStaged | src/indexing/BufferedArffMatrixWriter.java:141-239 | a term list without cells writes nothing: its head or comma stays staged |
| ArffWriter.IntendedIgnoresFirst | src/indexing/BufferedArffMatrixWriter.java:126-147 | under the intended rule the first document of the part makes no difference |
| ArffWriter.WriteTermListsAppend | src/indexing/BufferedArffMatrixWriter.java:129-241 | writing two runs of term lists in turn is writing their concatenation |
| ArffWriter.PartsDoNotMatter | src/indexing/BufferedArffMatrixWriter.java:118-242 | under the intended rule, cutting the matrix into non-empty parts changes nothing, failures included |
| ArffWriter.WriteTermListText | src/indexing/BufferedArffMatrixWriter.java:141-239 | a term list that fits, written from an empty array, succeeds and writes its head or comma and its cells |
| ArffWriter.WritePartsText | src/indexing/BufferedArffMatrixWriter.java:118-242 | parts that fit are written without failure, each as its text read against its own first document |
| ArffWriter.WriteFileText | src/indexing/BufferedArffMatrixWriter.java:64-249 | the whole file of parts that fit is the header, the text of each part in turn and the closing brace |
| ArffWriter.IntendedFileText | src/indexing/BufferedArffMatrixWriter.java:141-147 | under the intended rule the file depends only on the term lists in order, not on the cut into parts |
| ArffWriter.RecordsJoin | src/indexing/BufferedArffMatrixWriter.java:141-179 | under the intended rule, term lists of distinct neighbouring documents give one `{...}` record per line, and the final brace closes the last one |
| ArffWriter.StitchedMerge | src/indexing/BufferedArffMatrixWriter.java:181-191 | two neighbouring term lists of one document read as the one list they make together |
| ArffWriter.SplitDocumentStitched | src/indexing/BufferedArffMatrixWriter.java:180-191 | under the intended rule, a document whose list is cut in two neighbouring lists (by a part boundary or otherwise) is written exactly as if it had come whole |
| ArffWriter.PartBoundaryStitched | src/indexing/BufferedArffMatrixWriter.java:118-126 | a part boundary inside a document's list is such a cut |
| ArffWriter.PartStartLeavesRecordOpen | src/indexing/BufferedArffMatrixWriter.java:141-147 | as written, a part that starts with a new document leaves the previous record unclosed and on the same line; the intended rule closes it with `}\n` |
| BlockIndexer.BuildVocabulary | src/indexing/BlockIndexer.java:142-174 | fails exactly on an empty stream (the last token is null) or a last document id of 0 (division by zero); otherwise it counts every token, sets the number of documents to the last token's id, the unique terms to the vocabulary size, the average to the truncated quotient, and finalizes the vocabulary |
| BlockIndexer.FirstPassVocabulary | src/indexing/BlockIndexer.java:149-161 | the first pass's vocabulary holds the distinct terms in first-seen order; a term is absent exactly when no token carries it, and otherwise its entry is what its occurrences produce |
| BlockIndexer.FirstPassOfStream | src/indexing/BlockIndexer.java:142-174 | on the tokens of an archive with at least one token the first pass succeeds, the number of documents lies between 1 and the number of files, and each term's collection and document frequencies are its number of occurrences and of distinct documents |
| BlockIndexer.BlockLength | src/indexing/BlockIndexer.java:220-247 | a block takes at most 655360 tokens and fewer only when fewer remain |
| BlockIndexer.DrawBlock | src/indexing/BlockIndexer.java:220-247 | the inner loop, charging 16 per token against 10 MiB, draws exactly the block length |
| BlockIndexer.CutShape | src/indexing/BlockIndexer.java:190-298 | the blocks together are the stream, every block holds 1 to 655360 tokens, and all but the last are full |
| BlockIndexer.AddToRow | src/indexing/BlockIndexer.java:243 | only the count of the term id in the document's row grows, by the value; every other row and the document order stay |
| BlockIndexer.CountToken | src/indexing/BlockIndexer.java:226-245 | the token's document becomes the last drawn and has a row, appended unless it had one |
| BlockIndexer.CountTokensValid | src/indexing/BlockIndexer.java:220-247 | counting keeps the block matrix valid: distinct documents, and rows with distinct term ids |
| BlockIndexer.StartBlock | src/indexing/BlockIndexer.java:201-215 | the start of a block is a valid matrix: empty, or the continued document's empty row |
| BlockIndexer.CountTokensKeys | src/indexing/BlockIndexer.java:204-234 | the rows of a counted block are its documents in order of first appearance |
| BlockIndexer.CountTokensFrequency | src/indexing/BlockIndexer.java:220-247 | every count of a counted block is the number of the block's tokens of that document and term id |
| BlockIndexer.SortedFrequency | src/indexing/BlockIndexer.java:273 | sorting the rows changes no count |
| BlockIndexer.BlockCounts | src/indexing/BlockIndexer.java:190-273 | a block matrix has one row per document of the block in first-appearance order, every row sorted by term id, and every count equal to the number of the block's tokens of that document and term id |
| BlockIndexer.StraddlingDocument | src/indexing/BlockIndexer.java:204-215 | a document cut by a block boundary has a row in both blocks |
| BlockIndexer.TermIDs | src/indexing/BlockIndexer.java:239-241 | succeeds exactly when the vocabulary knows every token's term (otherwise a null pointer), giving each token's document id and term id |
| BlockIndexer.DocumentsKnown | src/indexing/BlockIndexer.java:229-232 | every token's document can be looked up in `documents` by its id |
| BlockIndexer.BuildBlocks | src/indexing/BlockIndexer.java:176-298 | the second pass succeeds exactly when the vocabulary knows every token's term |
| BlockIndexer.CountBlocksTotal | src/indexing/BlockIndexer.java:190-298 | summed over the blocks, every count is the number of tokens of that document and term id |
| BlockIndexer.SecondPassCounts | src/indexing/BlockIndexer.java:176-298 | no token is lost between blocks: summed over all block matrices, each count is the number of that document's tokens with that term |
| BlockIndexer.SecondPassSucceeds | src/indexing/BlockIndexer.java:107-118 | the second pass never misses a term when it runs on the vocabulary of the first pass over the same tokens |
| BlockMerge.OpenReaders | src/indexing/BlockIndexer.java:343-377 | every queued reader has a current entry; reader k reads block file k, and the numbers are distinct |
| BlockMerge.OpenReadersCover | src/indexing/BlockIndexer.java:343-360 | every block file with a first entry has its reader in the queue |
| BlockMerge.MinIndex | src/indexing/BlockIndexer.java:390 | `poll` takes a reader that no other queued reader comes before |
| BlockMerge.PollFirst | src/indexing/PriorityQueueTermReaderComparator.java:12-28 | with distinct reader numbers the polled reader comes strictly before every other queued reader by the program's comparator |
| BlockMerge.SumOverRequeue | src/indexing/BlockIndexer.java:608-620 | taking a reader out of the queue and putting back what is left of it changes a sum over the queue by the difference |
| BlockMerge.Flush | src/indexing/BlockIndexer.java:567-585 | a flush empties the matrix and resets the counter, appends one part that keeps the matrix's documents (the matrix itself without thresholds), and counts the entries the thresholds removed |
| BlockMerge.Run | src/indexing/BlockIndexer.java:557 | the entries at the front of a reader that belong to the document: all of them, up to the first of another document |
| BlockMerge.NextQueue | src/indexing/BlockIndexer.java:386-620 | one round keeps every queued reader live and leaves fewer entries in the queue |
| BlockMerge.LoneReader | src/indexing/BlockIndexer.java:415-419 | while the readers share no document, no other queued reader is current on the polled document, so the peek loop adds no second active reader |
| BlockMerge.SingleReaderPath | src/indexing/BlockIndexer.java:386-620 | one round keeps the readers free of shared documents |
| BlockMerge.RoundKeepsNumbers | src/indexing/BlockIndexer.java:608-620 | a reader goes back under its own number, so the numbers stay distinct |
| BlockMerge.TakeCounter | src/indexing/BlockIndexer.java:561-581 | taking an entry counts one more entry taken, and the counter stays between 0 and 10240 |
| BlockMerge.DrainShape | src/indexing/BlockIndexer.java:557-601 | draining a document takes its whole run, keeps the counter below a cycle, leaves it 0 exactly when the matrix is empty, and writes no part without a row |
| BlockMerge.MergeLoopShape | src/indexing/BlockIndexer.java:386-621 | after the loop every entry the readers held is taken, the counter is below a cycle and 0 exactly when the matrix is empty, and every part has a row |
| BlockMerge.FlushCounts | src/indexing/BlockIndexer.java:567-581 | without thresholds a flush moves the matrix into the parts: nothing is lost and nothing counts as thresholded |
| BlockMerge.TakeCounts | src/indexing/BlockIndexer.java:559-561 | without thresholds a take adds the entry's value to its document and term id, and only there |
| BlockMerge.DrainCounts | src/indexing/BlockIndexer.java:553-601 | without thresholds, draining a document moves exactly the values of its run into the emitted parts and matrix |
| BlockMerge.DrainThresholded | src/indexing/BlockIndexer.java:567-575 | without thresholds a drain counts nothing as thresholded |
| BlockMerge.MergeLoopCounts | src/indexing/BlockIndexer.java:386-621 | without thresholds the loop emits exactly the values its readers hold |
| BlockMerge.OpenFromSum | src/indexing/BlockIndexer.java:343-360 | the queue holds, summed, what the block files hold |
| BlockMerge.MergeConserves | src/indexing/BlockIndexer.java:386-636 | without thresholds the parts written hold, for every document and term id, exactly the summed values of the block files, and nothing counts as thresholded |
| BlockMerge.MergeLoopEnd | src/indexing/BlockIndexer.java:384-621 | after the loop the counter plus a full cycle per written part is the number of entries in the block files |
| BlockMerge.FinalMatrixEmpty | src/indexing/BlockIndexer.java:562-581 | the matrix left after the loop is empty exactly when the block files hold a multiple of 10241 entries |
| BlockMerge.FinishAlways | src/indexing/BlockIndexer.java:624-636 | the unconditional final flush adds a part with as many documents as the matrix left over |
| BlockMerge.AsWrittenFinalPart | src/indexing/BlockIndexer.java:624-636 | as written, the final part is empty exactly when the block files hold a multiple of 10241 entries |
| BlockMerge.CorrectedPartsNonEmpty | src/indexing/BlockIndexer.java:624-636 | writing the final part only when it has a document leaves no part without a row |
| BlockMerge.CorrectedAgrees | src/indexing/BlockIndexer.java:624-636 | unless the entries fill whole cycles, both ways of writing the final part write the same parts |
| BlockMerge.WriteBothSplits | src/indexing/BlockIndexer.java:577-579 | writing each part to the tf file and its idf weights to the idf file in turn succeeds exactly when each file on its own does, with the same result |
| BlockMerge.WriteBothEmptyPart | src/indexing/BufferedArffMatrixWriter.java:126 | a part without a document makes the writing fail |
| BlockMerge.UpdateStatistics | src/indexing/BlockIndexer.java:666-667 | fails with a division by zero exactly when there are no documents; otherwise the tokens lose the thresholded entries, the other counts stay, and the average is the quotient of tokens by documents |
| BlockMerge.MergeMatrixFiles | src/indexing/BlockIndexer.java:311-668 | the merge succeeds exactly when both ARFF files are written and there are documents; the files are the parts written (tf) and their idf weights (idf), and the tokens lose the thresholded entries |
| BlockMerge.AsWrittenFails | src/indexing/BlockIndexer.java:624-636 | as written, a merge whose block files hold a multiple of 10241 entries fails on the empty final part |
| BlockMerge.OpenFrom | src/indexing/BlockIndexer.java:343-360 | the readers opened on the block files from `i` on: each live, on its own block file, in ascending file number |
| BlockMerge.OpenReadersDisjoint | src/indexing/BlockIndexer.java:343-377 | block files that share no document give readers that share none |
| BlockMerge.RequeueShape | src/indexing/BlockIndexer.java:608-620 | putting back a reader with fewer entries keeps the queue live and makes it smaller |
| BlockMerge.RequeueDisjoint | src/indexing/BlockIndexer.java:608-620 | putting back what is left of a reader keeps the readers free of shared documents and their numbers distinct |
| BlockMerge.TakeKeepsRow | src/indexing/BlockIndexer.java:567-585 | while the reader has more of the document, a flush reopens its row, so the document stays in the matrix |
| BlockMerge.TakeRows | src/indexing/BlockIndexer.java:559-585 | after the document's last entry the counter is 0 exactly when the matrix is empty, and every part keeps a row |
| BlockMerge.FinishCounts | src/indexing/BlockIndexer.java:624-636 | without thresholds the final part moves the leftover matrix into the parts, whichever way it is written |
| BlockMerge.FinishNonEmpty | src/indexing/BlockIndexer.java:624-636 | writing the final part only when it has a document keeps every part non-empty |
| Text.IndexOf | src/dao/CollectionStatistics.java:157 | `indexOf` is -1 exactly when the character is absent, and otherwise the position of its first occurrence |
| Text.Substring | src/dao/CollectionStatistics.java:162-163 | `substring` succeeds exactly for indices in range, with that slice |
| Text.ParseIntegerOfIntToString | src/dao/CollectionStatistics.java:165-177 | `parseInt`/`parseLong` of the printed form of an in-range integer gives the integer back |
| Text.JavaDiv | src/indexing/BlockIndexer.java:666-667 | Java's division truncates toward zero: Euclidean quotient for non-negative operands, negated quotient of magnitudes for mixed signs |
| Text.SplitAllCons | src/dao/Document.java:17 | `split` on a separator: a separator-free piece in front of the separator becomes the first piece and the rest is split on its own |
| Text.DropTrailingEmpty | src/dao/Document.java:17 | `split` drops exactly the trailing empty pieces: the result is a prefix, it does not end in an empty piece, and everything cut was empty |

## Left out

- Tokenizer.IsLetter: ASCII letters only; Java's `Character.isLetter` accepts every Unicode letter, so a word such as "café" ends early in the model.
- Tokenizer.ToLower: ASCII upper-case letters only; Java's `toLowerCase` maps every Unicode letter.
- Tokenizer.Lower: character by character; Java's `String.toLowerCase` depends on the locale and can change a string's length, which the model does not follow.
- Text.IsDigit: ASCII digits only, where the term rule calls `Character.isDigit`, which accepts every Unicode decimal digit.
- Text.ParseInteger: ASCII digits only; `Integer.parseInt` and `Long.parseLong` accept every Unicode decimal digit.
- DocumentTermList.AddValue: values are naturals, not Java floats, so a count above 2^24, which a float would round, is kept exact.
- DocumentTermList.AddTerm: the same as AddValue: +1 on a float above 2^24 changes nothing in Java and always counts in the model.
- VocabularyEntry.IncreaseDocFrequency: the frequency is unbounded; Java's `int` wraps after 2^31 - 1.
- VocabularyEntry.IncreaseCollectionFrequency: unbounded as well, no 32-bit wrap-around.
- PostingsList.AddTf: term frequencies and their sum are unbounded, no 32-bit wrap-around.
- BlockMerge.Take: the entry counter is unbounded; in the program it is reset after at most 10241 entries, so it never comes near the `int` limit.
- Orderings.StringCompareTo: compares Dafny characters (code points), while Java compares UTF-16 units; the orders differ between supplementary characters and U+E000 to U+FFFF.
- Orderings.SortStrings: sorts by StringCompareTo, with the same code-point caveat.
- SizedPriorityQueue.AddWithPriority: priorities are reals, so NaN, the two zeros and the infinities of `double` are not modelled.
- SizedPriorityQueue.Add: the comparator variant is modelled as written, with the same `size - 1` bound; no corrected version of it is given.
- BlockMerge.MergeMatrixFiles: requires block files that share no document, the regime in which the program takes the single-reader path. The second pass itself can split a document across two blocks (BlockIndexer.StraddlingDocument), so the merge results cover only collections whose blocks end on document boundaries.
- BlockMerge.MergeMatrixFiles: the multi-reader branch (BlockIndexer.java:426-545) is not modelled. It flushes only after the counter passes the limit, drops its active readers without putting them back, and its removal loop skips the element after a removed one, so it promises no conservation to prove.
- CollectionStatistics.ReadRoundTrip: requires that the printed average has no line break in it; the `double` text and its parser are parameters.
- DocumentTermList.CalculateIdfs: the idf formula is floating point; the weight is a parameter, and only the fact that term ids and their order stay is stated.
- BlockFiles.DictionaryRoundTrip: the chunks are the texts of the reader's 1024-byte reads, each decoded on its own, and the round trip is stated only when they concatenate to the written file. That holds whenever every read ends on a character boundary, so always for ASCII terms; a term holding a multi-byte character that a read boundary cuts decodes to U+FFFD on both sides and is not read back, which the model does not follow.
- BlockRoundTrip.ReadFileRoundTrip: the same condition on the decoded chunks; the matrix file is all ASCII (integers, tabs, `<`, `:`, `>` and float text), so for it every read ends on a character boundary.
- BlockReader.Prepare: the dictionary reader's `getTermCounter` is kept in the reader's state but no contract relates it to the number of terms read.
- Zip, file and gzip streams (`ZipFile`, `FileInputStream`, `FileWriter`, `GZIPOutputStream`, `processNextChunk`, `initNextFileEntry`, `init`): replaced by sequences of entries and chunks; read errors other than the end of a stream are not modelled.
- Stemming (`ZipTokenStream.java:274-280`): the stemmer class is not part of this model, so terms are never stemmed.
- The metadata-skip heuristic of the token stream and its rewind (`ZipTokenStream.java:84-119,323-356`): it depends on peeking into the underlying stream.
- The token stream's end-of-document branch (`ZipTokenStream.java:239-270`): it is never reached, since a term start is accepted only when its end lies in the same buffer.
- `Dictionary.applyTfThresholds`: it removes from a hash map while iterating its key set and so ends in `ConcurrentModificationException`.
- Floating point: idf weights, the DFR and cosine scoring methods, and the average document length as a `double`.
- `Main` (argument parsing and usage text), console output, `System.gc` and the memory estimates of `DocumentTermList` (`doubleSize`, `isFull`, `getAllocatedSizeInBytes`).
- Records and interfaces without behaviour: `Token`, `IIndexer`, `IDictionary`, `IPostingsList`, `IDocumentTermList`, `ITokenStream`, `IScoringMethod`, `PriorityQueueTermReaderToken` and `RetrievalResult`.

## Findings

| source | as written | input that shows it | evidently intended | confidence | as-written member | corrected member |
|---|---|---|---|---|---|---|
| src/indexing/ZipTokenStream.java:515-531 | a term is accepted only when `getEndOfNextTerm` finds its end inside the buffer, so a run that reaches the end of the buffer is dropped | a document "word word" gives the single term "word" | the end of the document closes its last term, as the stream's end-of-document branch (239-259) sets out to do | not executed | Tokenizer.FinalWordDropped, Tokenizer.WordWordExample, TokenStream.DocumentLastWordDropped | Tokenizer.FinalWordKept |
| src/indexing/BufferedArffMatrixWriter.java:141-147 | a new document that opens a part writes no `}\n` before its record, even when the previous part left a record open | two one-document parts with documents 1 and 2 put record 2 straight after record 1's cells, on the same line | every new record closes the open one first | not executed | ArffWriter.PartStartLeavesRecordOpen | ArffWriter.RecordsJoin, ArffWriter.IntendedFileText |
| src/indexing/BlockIndexer.java:624-636 | the final part is written unconditionally after the merge loop | block files holding 10241 entries in all: the loop's last flush empties the matrix, and writing the empty final part throws `NoSuchElementException` | the final part is written only when it holds a document | not executed | BlockMerge.AsWrittenFails, BlockMerge.AsWrittenFinalPart | BlockMerge.CorrectedPartsNonEmpty, BlockMerge.CorrectedAgrees |
| src/retrieval/SizedPriorityQueue.java:108 | a value is inserted only at an index below `mSize - 1` | a queue of size 1 never takes a value; a queue with one free slot drops a value that belongs last | an index below `mSize` takes the value | not executed | SizedPriorityQueue.LastSlotDropped, SizedPriorityQueue.SizeOneStaysEmpty | SizedPriorityQueue.AddWithPriorityCorrected, SizedPriorityQueue.CorrectedKeepsBest, SizedPriorityQueue.CorrectedSizeOneTakes |
| src/retrieval/SizedPriorityQueue.java:99 | the insertion point compares `val - priority`, so `getLowest` keeps the highest priorities, against the constructors' documentation at lines 25-27 | size 2 with `getLowest`, priorities 1, 2, 3 in turn: the queue holds 3 and 2 | `getLowest` keeps the lowest priorities (the sign `priority - val` left in a comment beside the one in use) | not executed | SizedPriorityQueue.GetLowestKeepsHighest | SizedPriorityQueue.AddIntended, SizedPriorityQueue.IntendedKeepsTracked, SizedPriorityQueue.IntendedKeepsLowestExample |
