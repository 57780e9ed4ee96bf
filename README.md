# Document ingestion core, modelled in Dafny

This project models the ingestion and change-detection path of a small document-search
service. The original is written in Python. An uploaded PDF or Word file passes through
four stages:

- it is accepted or refused by its extension;
- its text is extracted, page by page for a PDF with an OCR fallback, paragraph by
  paragraph for Word;
- the text is normalised;
- the text is recorded in a SQLite store whose rows are addressed by SHA-256 digests.

A language model is asked for a title of the first page, and its reply is cleaned up.

Modules, one per file:

- `wrappers.dfy`, module `Wrappers`: `Option` and `Result`.
- `text.dfy`, module `Text`: the Python string operations the code relies on, with
  Python's meaning. These are `strip`/`strip(chars)`, `join`, `splitlines`, `lower`,
  `endswith` and `str(int)`.
- `hashing.dfy`, module `Hashing`: `sha256_bytes` and `sha256_text`. SHA-256 is a
  parameter, any function from byte strings to 64-digit lower-case hex digests. The
  UTF-8 encoding is written out and proved injective.
- `normalize.dfy`, module `Normalizer`: the five rewrites of `_normalize`. It proves
  the shape of the normal form and exactly when the normaliser is idempotent. It also
  proves that the normaliser is not idempotent in general.
- `extract.dfy`, module `Extract`: `_blocks_text` (stable sort, filter, join),
  `extract_pdf_text` and `extract_docx_text`. The pages, their text blocks and the OCR
  are inputs and oracles.
- `database.dfy`, module `Database`: the three tables as maps, with `REPLACE INTO` given
  SQLite's meaning. The class `Store` holds `upsert_document` and `persist_chunk`. The
  content-addressing and unique-index invariants are proved.
- `corpus.dfy`, module `Corpus`: the pieces of `routes/corpus.py` listed below.
  - `allowed_file`;
  - the suffix dispatch of `_get_text`;
  - the snippet loop of `_extract_docx_title`, a method with a loop;
  - the title clean-up shared by both title extractors;
  - the two title extractors, with the language model as an oracle;
  - the path `add_doc` stores an upload under, and what it then records.

Where the system's documentation and the code differ, the model follows the code:

- `_normalize` is not idempotent. `"a-\nb-\nc"` becomes `"ab-\nc"` after one pass and
  `"abc"` after a second. `Normalizer.NormalizeNotIdempotent` proves this, and
  `Normalizer.NormalizeIdempotentIff` characterises the texts on which it is idempotent.
- The unique index on `embeddings(chunk_id, model)` (routes/database.py:69) provides for
  one embedding per chunk and model. But `chunk_id` is also the primary key of `embeddings`
  (routes/database.py:54), so a chunk has at most one embedding whatever the model.
  `Database.OneEmbeddingPerChunk` proves this.

## Model

| member | source | states |
|---|---|---|
| Text.Trim | routes/corpus.py:108 | `strip(chars)` never lengthens the text |
| Text.TrimFacts | routes/corpus.py:108 | `strip(chars)` gives the empty text exactly when every character is in `chars`; otherwise the result starts and ends with a character outside `chars` |
| Text.Strip | ingestion/extract.py:20 | `strip()` never lengthens the text |
| Text.StripFacts | ingestion/extract.py:20 | `strip()` empties exactly the blank texts, and what it leaves has no whitespace at either end |
| Text.TrimIsSlice | routes/corpus.py:108 | `strip(chars)` returns a contiguous piece `s[a..b]` of its input, and every character cut off before `a` or from `b` on is in `chars` |
| Text.TrimKeepsAbsent | routes/corpus.py:107-108 | stripping only removes characters: a character absent from the input is absent from the result |
| Text.TrimKeepsTrimmed | routes/corpus.py:108 | a text that starts and ends outside `chars` is left unchanged by `strip(chars)` |
| Text.StripIsSlice | ingestion/extract.py:20 | `strip()` returns a contiguous piece `s[a..b]` of its input, and every character cut off at either end is whitespace |
| Text.StripIdempotent | ingestion/extract.py:47 | `strip` of a stripped text changes nothing |
| Text.Join | ingestion/extract.py:21 | joining no parts gives the empty text; otherwise the first part is a prefix of the result |
| Text.JoinAppend | ingestion/extract.py:21 | joining one more part appends the separator and that part, so every part appears in order with a separator between neighbours |
| Text.JoinEndsWithLast | ingestion/extract.py:21 | the last part is a suffix of the joined text |
| Text.JoinOfStrippedIsStripped | ingestion/extract.py:20-21 | joining non-empty stripped parts gives a stripped text that is empty exactly when there are no parts |
| Text.Lower | routes/corpus.py:178 | `lower()` keeps the length and lower-cases each character on its own |
| Text.LineEnd | routes/corpus.py:107 | the first line boundary of a text: everything before it is not a boundary |
| Text.SplitLines | routes/corpus.py:107 | `splitlines()` gives lines holding no line boundary, gives no lines for the empty text, and its first line runs up to the first boundary |
| Text.NatToString | routes/database.py:87 | `str(n)` is a non-empty string of decimal digits |
| Text.ParseNatToString | routes/database.py:87 | the decimal rendering of a number reads back as that number |
| Text.NatToStringInjective | routes/database.py:87 | distinct version numbers render as distinct strings |
| Text.DigitSuffixSplit | routes/database.py:87 | a text ending in a digit run behind a non-digit splits in one way only |
| Hashing.Sha256Bytes | ingestion/extract.py:35-36 | `sha256_bytes` returns a 64-character lower-case hex digest |
| Hashing.EncodeChar | ingestion/extract.py:40 | one character encodes to 1 to 4 bytes, whose lead byte gives their number, followed by continuation bytes |
| Hashing.CodePointOfEncodeChar | ingestion/extract.py:40 | decoding the bytes of one encoded character gives back its code point |
| Hashing.EncodeCharInjective | ingestion/extract.py:40 | distinct characters have distinct encodings |
| Hashing.Utf8 | ingestion/extract.py:40 | the encoding has between one and four bytes per character |
| Hashing.Utf8Append | ingestion/extract.py:40 | the encoding of a concatenation is the concatenation of the encodings |
| Hashing.Utf8OfAscii | ingestion/extract.py:40 | an ASCII text encodes to one byte per character, equal to its code point |
| Hashing.Utf8Injective | ingestion/extract.py:38-40 | equal encodings come only from equal texts, so `sha256_text` hashes distinct texts as distinct byte strings |
| Hashing.Sha256TextOfAscii | ingestion/extract.py:38-40 | `sha256_text` of an ASCII text hashes the bytes of its code points, one per character |
| Hashing.Sha256TextCollision | ingestion/extract.py:38-40 | two different texts with the same `sha256_text` digest have different UTF-8 encodings with the same `sha256_bytes` digest: a text collision is a byte collision |
| Normalizer.UnifyLineEndings | ingestion/extract.py:24 | after the first two rewrites no `"\r"` is left, and the text is no longer |
| Normalizer.ReplaceCrLf | ingestion/extract.py:24 | replacing `"\r\n"` never lengthens the text and introduces no new character |
| Normalizer.Translate | ingestion/extract.py:25-26 | the quote substitutions keep the length and map each listed character to its replacement, leaving all others |
| Normalizer.Dehyphenate | ingestion/extract.py:27 | de-hyphenation never lengthens the text, keeps its first character and introduces no new character |
| Normalizer.DehyphenateKeepsText | ingestion/extract.py:27 | de-hyphenation removes only `-` and `"\n"`: every other character of the input is kept, in order |
| Normalizer.NewlineRun | ingestion/extract.py:28 | the number of leading line feeds: all of them are `"\n"` and the next character is not |
| Normalizer.CollapseBreaks | ingestion/extract.py:28 | collapsing never lengthens the text and introduces no new character |
| Normalizer.CollapseBreaksKeepsText | ingestion/extract.py:28 | collapsing removes only line feeds: every other character of the input is kept, in order |
| Normalizer.NewlineRunIs | ingestion/extract.py:28 | a text with exactly n leading line feeds has a run of n |
| Normalizer.CollapseBreaksRun | ingestion/extract.py:28 | a leading run of one or two line feeds is kept and a longer one becomes exactly two |
| Normalizer.NoRun3Prepend | ingestion/extract.py:28 | putting a character in front of a text without three line feeds in a row creates no such run unless two line feeds follow it |
| Normalizer.CollapseBreaksNoRun3 | ingestion/extract.py:28 | after collapsing, no three line feeds follow each other anywhere |
| Normalizer.ReplaceCrLfKeepsAbsent | ingestion/extract.py:24 | replacing `"\r\n"` introduces no character that was absent |
| Normalizer.NormalFormShape | ingestion/extract.py:23-29 | the output holds no `"\r"`, no curly quote and no three line feeds in a row |
| Normalizer.Normalize | ingestion/extract.py:23-29 | the output is never longer than the input, and apart from `-` and `"\n"` it holds exactly the characters of the text after the first three rewrites, in order |
| Normalizer.ReplaceCrLfFixes | ingestion/extract.py:24 | a text without `"\r"` passes the first replacement unchanged |
| Normalizer.TranslateFixes | ingestion/extract.py:25-26 | a text without the replaced characters passes a substitution unchanged |
| Normalizer.StraightenFixes | ingestion/extract.py:25-26 | a text without curly quotes passes both quote rewrites unchanged |
| Normalizer.PreparedFixes | ingestion/extract.py:24-26 | a text without `"\r"` and curly quotes passes the first three rewrites unchanged |
| Normalizer.PreparedFixesNormalForm | ingestion/extract.py:23-29 | every normal form passes the first three rewrites unchanged |
| Normalizer.DehyphenateFixes | ingestion/extract.py:27 | a text without a soft wrap is left unchanged by de-hyphenation |
| Normalizer.DehyphenateRemovesWrap | ingestion/extract.py:27 | a text with a soft wrap anywhere loses at least two characters |
| Normalizer.CollapseBreaksFixes | ingestion/extract.py:28 | a text without three line feeds in a row is left unchanged by collapsing |
| Normalizer.CollapseBreaksIdempotent | ingestion/extract.py:28 | collapsing twice gives what collapsing once gives |
| Normalizer.StraightenDoubleQuotes | ingestion/extract.py:25 | each curly double quote becomes `"`; every other character stays where it is |
| Normalizer.StraightenSingleQuotes | ingestion/extract.py:26 | each curly single quote becomes `'`; every other character stays where it is |
| Normalizer.Prepared | ingestion/extract.py:24-26 | after the first three rewrites the text is no longer, and holds no `"\r"` and no curly quote |
| Normalizer.TranslateAppend | ingestion/extract.py:25-26 | a character substitution of a concatenation is the concatenation of the substitutions |
| Normalizer.ReplaceCrLfAppend | ingestion/extract.py:24 | replacing `"\r\n"` works piece by piece wherever the cut does not split a `"\r\n"` |
| Normalizer.CrLfBecomesLf | ingestion/extract.py:24 | a leading `"\r\n"` becomes one `"\n"`, and the rest is unified on its own |
| Normalizer.LoneCrBecomesLf | ingestion/extract.py:24 | a leading `"\r"` not followed by `"\n"` becomes `"\n"`, and the rest is unified on its own |
| Normalizer.UnifyKeepsOther | ingestion/extract.py:24 | a leading character other than `"\r"` is kept, and the rest is unified on its own; with the two lemmas above this fixes the first two rewrites on every text |
| Normalizer.UnifyLineEndingsIdempotent | ingestion/extract.py:24 | unifying line endings twice gives what unifying once gives |
| Normalizer.DehyphenateSkips | ingestion/extract.py:27 | a character no match can start at passes through the scan unchanged |
| Normalizer.SoftWrapInSuffix | ingestion/extract.py:27 | a soft wrap of a suffix is a soft wrap of the whole text at the shifted index |
| Normalizer.WrapBehindMatch | ingestion/extract.py:27 | a wrap right behind a match comes from a second wrap sharing the matched word character |
| Normalizer.WrapAtFrontIsMatched | ingestion/extract.py:27 | a wrap at the front of the output would have been matched at the front of the input |
| Normalizer.DehyphenateClearsWraps | ingestion/extract.py:27 | without two chained wraps in the input, no soft wrap is left after de-hyphenation |
| Normalizer.CollapseBreaksKeepsHead | ingestion/extract.py:28 | a text that does not start with a line feed keeps its first character |
| Normalizer.CollapsedWrapAtFront | ingestion/extract.py:27-28 | a soft wrap at the front of a collapsed text was already a soft wrap of its input |
| Normalizer.CollapseBreaksKeepsNoWrap | ingestion/extract.py:27-28 | collapsing line feeds never creates a soft wrap |
| Normalizer.NormalizeIdempotentIff | ingestion/extract.py:23-29 | normalising twice equals normalising once exactly when the normal form holds no soft wrap |
| Normalizer.NormalizeIdempotent | ingestion/extract.py:23-29 | a text without chained wraps after the first three rewrites is normalised in one pass |
| Normalizer.NormalizeWithoutRuns | ingestion/extract.py:28 | when de-hyphenation leaves no three line feeds in a row, the last rewrite changes nothing |
| Normalizer.NormalizeWithoutBreaks | ingestion/extract.py:23-29 | a text without `"\r"` or curly quotes whose de-hyphenation holds no line feed normalises to that de-hyphenation |
| Normalizer.ReplaceCrLfExample | ingestion/extract.py:24 | `"a-\r\nb"` becomes `"a-\nb"` in the first replacement |
| Normalizer.PreparedCrLfWrap | ingestion/extract.py:24-26 | `"a-\r\nb"` reaches de-hyphenation as `"a-\nb"` |
| Normalizer.CrLfWrapIsJoined | ingestion/extract.py:24-27 | a wrap ending in `"\r\n"` is joined: `"a-\r\nb"` normalises to `"ab"` |
| Normalizer.DehyphenateChained | ingestion/extract.py:27 | on `"a-\nb-\nc"` the scan joins only the first wrap, giving `"ab-\nc"` |
| Normalizer.SingleBreakExample | ingestion/extract.py:28 | `"ab-\nc"` holds no three line feeds in a row |
| Normalizer.ChainedWrapsFirstPass | ingestion/extract.py:23-29 | `"a-\nb-\nc"` normalises to `"ab-\nc"` |
| Normalizer.DehyphenateExposed | ingestion/extract.py:27 | de-hyphenating `"ab-\nc"` gives `"abc"` |
| Normalizer.ChainedWrapsSecondPass | ingestion/extract.py:23-29 | `"ab-\nc"` normalises to `"abc"` |
| Normalizer.NormalizeNotIdempotent | ingestion/extract.py:23-29 | normalising `"a-\nb-\nc"` twice differs from normalising it once |
| Extract.InsertedAbove | ingestion/extract.py:19 | a key below every block of a list and below the inserted block is below every block of the result |
| Extract.ConsSorted | ingestion/extract.py:19 | a block whose key is at most every key of a sorted list can go in front of it |
| Extract.InsertByKey | ingestion/extract.py:19 | inserting into a sorted list keeps it sorted by (y, x) and adds exactly that block |
| Extract.SortByKey | ingestion/extract.py:19 | the sort returns the blocks, as a permutation, ordered by (y, x) |
| Extract.InsertKeepsKeyOrder | ingestion/extract.py:19 | an inserted block goes in front of every block with an equal key |
| Extract.SortIsStable | ingestion/extract.py:19 | blocks with equal keys keep their input order |
| Extract.NonEmptyTexts | ingestion/extract.py:20 | the kept block texts are stripped and non-empty, and there are at most as many as blocks |
| Extract.NonEmptyTextsAppend | ingestion/extract.py:20 | the comprehension keeps, in order, the stripped text of each block whose stripped text is non-empty, and nothing for blank blocks |
| Extract.NonEmptyTextsEmpty | ingestion/extract.py:20 | no text is kept exactly when every block is blank |
| Extract.BlocksText | ingestion/extract.py:17-21 | the page text is already stripped: `strip` leaves it unchanged |
| Extract.BlocksTextShape | ingestion/extract.py:17-21 | the page text is empty exactly when every block is blank |
| Extract.PageParts | ingestion/extract.py:44-50 | one part per page |
| Extract.ExtractPdfText | ingestion/extract.py:42-54 | the loop yields the parts joined by `"\n\n\f\n\n"`, stripped and normalised once |
| Extract.PagePartsAt | ingestion/extract.py:45-50 | part k belongs to page k |
| Extract.OcrOnlyWhenNoText | ingestion/extract.py:46-49 | the OCR oracle decides a page's part exactly when its block text is empty; otherwise the part is the block text |
| Extract.PagePart | ingestion/extract.py:46-49 | a page part, from the text layer or from OCR, is stripped |
| Extract.TextLayerNeedsNoOcr | ingestion/extract.py:45-54 | a document whose every page has a text layer is extracted the same whatever the OCR says |
| Extract.OcrReachesOnlyItsPage | ingestion/extract.py:45-50 | OCR oracles that agree on the pages without text give the same parts |
| Extract.PdfText | ingestion/extract.py:42-54 | the PDF text holds no `"\r"`, no curly quote and no three line feeds in a row |
| Extract.ParagraphTexts | ingestion/extract.py:58 | the paragraph texts, one per paragraph, in order |
| Extract.DocxTextIgnoresPageBreaks | ingestion/extract.py:56-59 | the Word text depends on the paragraph texts only |
| Extract.DocxText | ingestion/extract.py:56-59 | the Word text holds no `"\r"`, no curly quote and no three line feeds in a row |
| Database.Trunc | routes/database.py:81 | `int(mtime)` truncates toward zero |
| Database.ChunkId | routes/database.py:88 | the chunk id is the document id, a `:` and the first 12 digits of the chunk hash |
| Database.ChunkIdDetermines | routes/database.py:88 | a chunk id determines the document id and the 12-digit hash prefix, even when the document id holds a `:` |
| Database.VersionTagged | routes/database.py:87 | the hashed text starts with the chunk text, followed by a version tag of at least 12 characters |
| Database.VersionTagIsFixed | routes/database.py:87 | with both versions at 1, the hashed text is the chunk text followed by the fixed tag naming tok=1 and seg=1 |
| Database.VersionTaggedInjective | routes/database.py:87 | equal tagged texts come only from equal texts and equal versions |
| Database.ContentHash | routes/database.py:87 | `content_hash` is `sha256_text` of the text followed by the fixed version tag |
| Database.VersionBumpChangesInput | routes/database.py:6-7 | raising either version changes the bytes hashed into `content_hash` for every text |
| Database.KeyedIsDocHashUnique | routes/database.py:64 | a chunk table keyed by chunk id satisfies the `(doc_id, chunk_hash)` unique index |
| Database.ReplaceChunk | routes/database.py:89-91 | `REPLACE` inserts the row under its id and deletes exactly the rows clashing on the id or on `(doc_id, chunk_hash)` |
| Database.ReplaceTouchesOnlyKey | routes/database.py:89-91 | on a content-addressed table, `REPLACE` of a content-addressed row changes only its own chunk id |
| Database.ReplaceKeepsDocHashUnique | routes/database.py:64 | `REPLACE` keeps the `(doc_id, chunk_hash)` index unique |
| Database.ReplaceKeepsAddressed | routes/database.py:85-91 | `REPLACE` of a content-addressed row keeps the table content-addressed |
| Database.ReplaceKeepsCurrent | routes/database.py:85-91 | `REPLACE` of a row hashed under the current versions keeps every content hash current |
| Database.PersistKeepsTable | routes/database.py:85-93 | `REPLACE` of a row under its own chunk id changes only that id, keeps the table content-addressed and the index unique, and keeps current content hashes current |
| Database.ReplaceChunkIdempotent | routes/database.py:89-93 | replacing the same row twice leaves the table the first replacement left |
| Database.EmbeddingPairs | routes/database.py:69 | the `(chunk_id, model)` pairs are exactly those of the embedding rows |
| Database.OneEmbeddingPerChunk | routes/database.py:53-69 | since `chunk_id` is the primary key, the `(chunk_id, model)` index never clashes and a chunk has at most one embedding |
| Database.Store.constructor | routes/database.py:23-71 | a fresh store has three empty tables and satisfies the invariant: every chunk is stored under `doc_id:chunk_hash[:12]` and its `chunk_hash` is `sha256_text` of its text |
| Database.Store.UpsertDocument | routes/database.py:74-83 | a matching stored hash gives false and no write; otherwise the row is replaced with a NULL title and the result is true; afterwards the hash matches, so a repeated call gives false; the chunk invariant is untouched |
| Database.Store.PersistChunk | routes/database.py:85-93 | on any store whose chunks are content-addressed, whatever versions their content hashes were computed under: returns the chunk id `doc_id:chunk_hash[:12]` and the content hash of the text under the current versions; the table becomes the old one with exactly that row stored under that id; the other tables do not change; the table stays content-addressed with a unique `(doc_id, chunk_hash)` index; if every content hash was current, every one still is |
| Corpus.Extension | routes/corpus.py:178 | `rsplit('.', 1)[1]`: none exactly when there is no `.`; otherwise the file name ends in `.` and the extension, which holds no `.` |
| Corpus.LastDot | routes/corpus.py:178 | the index of the last `.`, or none when there is no `.` |
| Corpus.AllowedFile | routes/corpus.py:177-178 | a file name is allowed exactly when it has a last `.` whose tail, lower-cased, is pdf, doc or docx |
| Corpus.NoDotIsRejected | routes/corpus.py:178 | `"report"` is refused |
| Corpus.UpperCaseExtensionIsAllowed | routes/corpus.py:178 | `"x.PDF"` is allowed |
| Corpus.EmptyExtensionIsRejected | routes/corpus.py:178 | `"file."` is refused |
| Corpus.LastExtensionAllowsDocx | routes/corpus.py:178 | `"notes.v2.docx"` is allowed, since only the last extension counts |
| Corpus.LastExtensionRejectsExe | routes/corpus.py:178 | `"scan.pdf.exe"` is refused, since only the last extension counts |
| Corpus.SelectExtractor | routes/corpus.py:21-24 | the PDF extractor exactly for a `.pdf` suffix, the Word one exactly for `.doc`/`.docx` otherwise |
| Corpus.GetText | routes/corpus.py:19-25 | a path with none of the suffixes gives `"Untitled"` |
| Corpus.UpperCaseSuffixIsUntitled | routes/corpus.py:21-25 | the suffix test is case-sensitive: `.PDF` and `.DOCX` give `"Untitled"` |
| Corpus.Lines | routes/corpus.py:56-57 | one stripped line per paragraph |
| Corpus.LinesAreStripped | routes/corpus.py:57 | every stripped paragraph text is stripped |
| Corpus.Kept | routes/corpus.py:58-59 | at most one snippet is appended per paragraph |
| Corpus.Gathered | routes/corpus.py:56-60 | no more snippets than paragraphs read |
| Corpus.GatheredFromLines | routes/corpus.py:57-59 | each snippet is the non-empty stripped text of a paragraph read |
| Corpus.TotalLengthAppend | routes/corpus.py:60 | appending a snippet adds its length to the total |
| Corpus.GatheredLengthIsTotal | routes/corpus.py:55-60 | the running total is the sum of the snippets' lengths |
| Corpus.GatheredAgrees | routes/corpus.py:56-60 | the snippets from the first n paragraphs depend on those paragraphs only |
| Corpus.ReadFrom | routes/corpus.py:56-70 | the loop reads at least one more paragraph while any are left, and never past the end |
| Corpus.ReadFromStops | routes/corpus.py:69-70 | the loop does not stop before the last paragraph it reads, and stops at that one unless the paragraphs ran out |
| Corpus.ReadCountStops | routes/corpus.py:56-70 | from the first paragraph, the loop reads up to and including the first one with a page break or that brings the total to 8000, and no further |
| Corpus.ReadFromLooksNoFurther | routes/corpus.py:56-70 | how far the loop reads depends only on the paragraphs it reads |
| Corpus.GatherStep | routes/corpus.py:56-70 | one turn of the loop: append, add and test the stop rule |
| Corpus.GatherSnippets | routes/corpus.py:53-70 | the loop returns the snippets of the paragraphs up to the stop, and the total of their stripped lengths |
| Corpus.Prefix | routes/corpus.py:75 | `s[:n]` is the prefix of `s` of exactly n characters when `s` is longer, and all of `s` otherwise |
| Corpus.Snippet | routes/corpus.py:75-78 | the snippet is non-empty, stripped and at most 8000 characters, or there is none |
| Corpus.GatheredIsStripped | routes/corpus.py:57-59 | every gathered snippet is non-empty and stripped |
| Corpus.GatheredSnippetIsSome | routes/corpus.py:72-78 | gathered snippets always give a snippet, so the empty-snippet exit is never taken |
| Corpus.FirstNonBlankLine | routes/corpus.py:107 | the line picked is empty exactly when every line is blank |
| Corpus.FirstNonBlankLineIsFirst | routes/corpus.py:107 | the line picked is the first non-blank line, stripped |
| Corpus.UnknownIsNotATitle | routes/corpus.py:109-111 | `"Unknown"` is never an accepted title |
| Corpus.TitleLine | routes/corpus.py:104-108 | the cleaned line neither starts nor ends with a quote or a space |
| Corpus.SanitizeTitle | routes/corpus.py:103-111 | the result is `"Unknown"` or a title of 1 to 200 characters, not `"unknown"` in any case, without quotes or spaces at its ends; it is not `"Unknown"` exactly when the cleaned first line has that shape, and then it is that line |
| Corpus.SanitizedTitleIsFirstLine | routes/corpus.py:103-111 | an accepted title is the first non-blank line of the reply, stripped of whitespace and then of quotes and spaces, and holds no line break |
| Corpus.ApiKey | routes/corpus.py:80 | the key is empty exactly when both the configured and the environment key are |
| Corpus.AskForTitle | routes/corpus.py:80-114 | the answer is `"Unknown"` or an accepted title |
| Corpus.NoKeyNeverAsks | routes/corpus.py:81-82 | without a key the result is `"Unknown"` whatever the model would answer |
| Corpus.FailedCallIsUnknown | routes/corpus.py:112-114 | a failing model call gives `"Unknown"` |
| Corpus.DocxTitle | routes/corpus.py:46-117 | the Word title is `"Unknown"` or an accepted title |
| Corpus.ExtractDocxTitle | routes/corpus.py:46-117 | running the loop gives the Word title |
| Corpus.DocxTitleReadsFirstPageOnly | routes/corpus.py:53-78 | documents that agree on the paragraphs the loop reads get the same title |
| Corpus.PdfTitle | routes/corpus.py:123-170 | failing exactly when non-empty bytes cannot be opened, with that error; otherwise `"Unknown"` or an accepted title |
| Corpus.PdfTitleReadsFirstPageOnly | routes/corpus.py:131-136 | only the first page of the PDF affects the title |
| Text.EndsWithIff | routes/corpus.py:21-23 | `endswith` holds exactly when the text is some text followed by the suffix |
| Corpus.JoinPath | routes/corpus.py:213 | the joined path ends with the file name |
| Corpus.StoredPath | routes/corpus.py:213 | the saved upload's path ends in the bare document id |
| Corpus.IntendedStoredPath | routes/corpus.py:212-213 | the corrected path ends in the document id, a `.` and the lower-cased extension of the uploaded file name |
| Corpus.UploadRejection | routes/corpus.py:187-201 | an upload is refused with a 400 exactly when the file part is missing, the name is empty or the extension is not allowed |
| Corpus.AsWrittenTextIsUntitled | routes/corpus.py:213-224 | the upload path ends in the bare uuid, so `_get_text` gives `"Untitled"` |
| Corpus.NoDotNearEndIsUntitled | routes/corpus.py:21-25 | a path with no `.` among its fourth- and fifth-last characters reaches no extractor |
| Corpus.DocSuffixSelectsDocx | routes/corpus.py:23-24 | a `.doc` path reaches the Word extractor |
| Corpus.DocxSuffixSelectsDocx | routes/corpus.py:23-24 | a `.docx` path reaches the Word extractor |
| Corpus.TailSelectsExtractor | routes/corpus.py:21-24 | a path ending in `.` and an allowed lower-case extension reaches the extractor for it |
| Corpus.JoinedExtensionSelects | routes/corpus.py:213-224 | an id followed by an allowed extension reaches the extractor for that extension |
| Corpus.IntendedPathSelectsExtractor | routes/corpus.py:213-224 | with the extension kept, every allowed upload reaches the extractor for its type |
| Corpus.StoreUpload | routes/corpus.py:216-226 | a failed save gives a 500 and no write; otherwise the text of the path is upserted and 201 is returned |
| Corpus.AddDoc | routes/corpus.py:181-231 | refused uploads and failed saves change no document; an accepted and saved upload is recorded with the text `"Untitled"`: the document row is left as it is when its hash already matches, and otherwise becomes a row for the stored path with a NULL title, the hash of `"Untitled"` and the upload time, other documents unchanged |
| Corpus.AddDocIntended | routes/corpus.py:181-231 | with the extension kept, an accepted and saved upload is recorded with the text of its own extractor: the document row is left as it is when its hash already matches, and otherwise becomes a row for the stored path with a NULL title, the hash of that text and the upload time, other documents unchanged |

## Left out

- Flask plumbing is not modelled: routing, `request.files`, `jsonify`, `current_app`/`g`
  and logging. The checks of `add_doc` take whether a file part exists and the file name
  as inputs.
- `file.save` is the `saved` input, and `uuid4()` and the clock are the `docId` and
  `mtime` inputs. The upload folder and the `UPLOAD_FOLDER` lookup are the `folder` input.
  `makedirs` is not modelled.
- `secure_filename` and `os.path.splitext` are not modelled. They feed only
  `stored_filename`, which the code never uses.
- `_get_title` is not modelled. Nothing calls it.
- PyMuPDF, PIL and pytesseract are not modelled. A page is the list of blocks that
  `extractBLOCKS` returns, and `_ocr_page` is an oracle from pages to text. For the title,
  opening the bytes and reading each page's text is one oracle returning a `Result`.
- `Extract.Block`: coordinates are integers that stand for the values rounded to two
  decimals. Float rounding is not modelled.
- `Extract.SortByKey`: the in-place `blocks.sort` is a pure stable insertion sort. The
  list is local to `_blocks_text`, so no aliasing is lost.
- `Normalizer.IsWordChar`: `\w` is restricted to ASCII letters, digits and `_`. Python's
  `\w` also matches non-ASCII letters and digits. The proofs rely only on `-`, `\n` and
  `\r` not being word characters.
- `Text.Lower`: `lower()` is exact for ASCII and for the Kelvin sign. Other non-ASCII
  characters are left unchanged. This gives Python's verdict wherever the result is
  compared with an ASCII word, which is the only use the code makes of it.
- Hashing.Sha256Text: a Python `str` may hold a lone surrogate, on which `encode('utf-8')`
  raises. A Dafny `char` is a Unicode scalar value and cannot hold one, so that error path
  is not modelled.
- Database.Trunc: `int(mtime)` raises on NaN and infinity. A `real` cannot be either, so
  that error path is not modelled.
- `Hashing.Sha256Bytes`: SHA-256 is an oracle parameter that returns a 64-digit
  lower-case hex string. Nothing about its internals is modelled. `sha256_file` and its
  stream seek are not modelled.
- The SQLite engine is not modelled, nor are `get_db`/`close_db`, the DDL of `init_db`,
  `commit` and foreign keys (SQLite does not enforce them by default). The tables are
  maps, and `init_db` on a fresh database is the `Store` constructor.
- `embed_if_needed` is not modelled. It is commented out in the source.
- The OpenAI client, prompt, model name, `base_url` and temperature are not modelled.
  The call is an oracle from the snippet to `Option<string>`. `None` stands for any
  exception, and an empty `choices` list is `Some("")`.
- python-docx is not modelled. A paragraph is its text and a flag saying whether one of
  its runs holds a page break. Detecting that break in the XML is left out.
- `Corpus.DocxTitle`: only a failure of `Document()` itself is modelled, as `None`. An
  exception later in the loop, which would also give `"Unknown"`, is not. The test
  `if not data` is dropped because a `Document` object is always truthy.
- `Corpus.GetText`: the extractors are total functions of the path. An exception they
  raise, which `_get_text` does not catch, is not modelled.
- `Corpus.PdfTitle`: the uploaded bytes are an input. The stream position that is saved
  and restored, and the document left open on early returns, are not modelled.
- `Extract.DocxText`: opening the Word file is not modelled. The paragraphs are the input.

## Findings

| source | as written | input that shows it | evidently intended | confidence | as-written member | corrected member |
|---|---|---|---|---|---|---|
| routes/corpus.py:213 | `add_doc` saves the upload under the upload folder joined with the bare uuid, then passes that path to `_get_text`, which dispatches on the path's suffix | an accepted upload `report.pdf` with any uuid4 id: the path ends in hex digits, so `_get_text` returns `"Untitled"` and that text is what gets recorded | the stored path keeps the lower-cased extension, so the PDF or Word extractor runs and the document's own text is recorded | high (not executed) | Corpus.AsWrittenTextIsUntitled | Corpus.IntendedPathSelectsExtractor |
