# Lecture-notes pipeline: text processing, summarisation, transcript and note assembly

This project models, in Dafny, the text side of a lecture-notes backend. An uploaded lecture is
transcribed; the transcript is cleaned, cut into sentences and sections and mined for keywords; it
is summarised extractively into a paragraph and a list of key points; finally a Markdown note and
its plain-text version are assembled. Four source modules are covered:

- `TextProcessor` (backend/modules/processor.py): filler and bracket removal, sentence splitting,
  greedy packing of sentences into sections under a length budget, frequency-ranked keywords,
  chunked "simplified notes" and the assembled processing result.
- `Summarizer` (backend/modules/summarizer.py): the additive sentence score, the removal of spoken
  openings, near-duplicate merging by five-word prefix, top-k selection by a stable descending
  sort, the "trim harder" fallback, bullet-point extraction and per-section summaries.
- `Transcriber` (backend/modules/transcriber.py): segment combining, the audio-path decision of
  `extract_audio` and the pure parts of the mock transcription (topic, duration, segment table,
  text).
- `NoteGenerator` (backend/modules/note_generator.py): `_build_markdown` with the timestamp given
  as an input, `generate_note_content` without its HTML part, and `_extract_plain_text`.

Files and modules (one module per file):

| file | module | what it holds |
|---|---|---|
| wrappers.dfy | Wrappers | `Option` |
| strings.dfy | Strings | Python `str` operations: `isspace`, `strip`, `split`, `join`, `lower`, `replace`, `str(int)`; infixes |
| seqs.dfy | Seqs | slicing, counting, flattening, first-occurrence de-duplication |
| ranking.dfy | Ranking | the stable descending sort of indices by score, and top-k in document order |
| cleaning.dfy | Cleaning | whitespace collapsing, the filler alternation with `\b`, lazy `[..]`/`(..)` span removal |
| processor.dfy | Processor | `TextProcessor` |
| scoring.dfy | Scoring | `_score_sentence` in integer half-points, and the float formula over the reals |
| compression.dfy | Compression | `_compress_sentence` with a backtracking matcher for its four anchored patterns |
| summarizer.dfy | Summarizer | sentence splitting, merging, `summarize`, `summarize_sections` |
| bullets.dfy | Bullets | `extract_bullet_points` |
| transcriber.dfy | Transcriber | `Transcriber` |
| notegen.dfy | NoteGenerator | `NoteGenerator` |

Modelling choices:

- Strings are `seq<char>`. Character classes follow Python, but case mapping, `isalpha`,
  `isalnum`, `\w` and `\d` are ASCII only: `Strings.HasDigit` reads `\d` as `0` to `9`, where
  Python's `\d` on `str` also matches the other Unicode decimal digits. `str.isspace` is modelled with its full set of characters.
- Every score increment in `_score_sentence` is a multiple of 0.5. Scores are therefore whole
  numbers of half-points, and `Scoring.ScoreIsHalfPoints` proves that this is exactly twice the
  float formula evaluated over the reals. The float thresholds become integer comparisons:
  `5*i < n` for a position below 0.2, `10*i > 9*n` for one above 0.9, and `5*w > 4*wc` for the
  0.8 ratio.
- Python's stable `sort(reverse=True)` over scores is modelled as the unique ordering of the
  indices by (score descending, index ascending) (`Ranking.Rank`, `Ranking.RankedUnique`).
- The dicts the code passes around become records. A missing key is `None`, and `.get(k, d)` is
  `GetOr(d)`. In `summarize_sections` the section dict is a `map<string, Value>`, so that every
  other key can be shown to be copied unchanged.
- File sizes, the clock and the existence of files are inputs: `MockDuration` takes the size, or
  `None` when it cannot be read, and `BuildMarkdown` takes the timestamp text.

## Model

| member | source | states |
|---|---|---|
| Cleaning.Collapse | backend/modules/processor.py:36 | `re.sub(r'\s+', ' ', s)` never lengthens the text, is empty only for the empty text, and starts with a space exactly when the text starts with whitespace |
| Cleaning.CollapseSingleSpaced | backend/modules/processor.py:36 | after collapsing, every whitespace character is a plain space and no two spaces are adjacent |
| Cleaning.CollapseWords | backend/modules/processor.py:36 | collapsing whitespace keeps the words of the text, in order |
| Cleaning.Normalize | backend/modules/processor.py:36 | the collapsed and stripped text is single-spaced with no whitespace at either end, and no longer than the input |
| Cleaning.NormalizeIsJoinedWords | backend/modules/processor.py:36 | the normalised text is the text's words joined by single spaces |
| Cleaning.NormalizeFixpoints | backend/modules/processor.py:36 | normalising leaves a text unchanged exactly when it is already single-spaced and stripped |
| Cleaning.FirstFillerSpec | backend/modules/processor.py:40 | the alternation matches at a position with the first alternative, in listed order, that matches there between word boundaries, and fails only when none does |
| Cleaning.RemoveFromFixpoints | backend/modules/processor.py:45-46 | one substitution pass of the filler alternation changes nothing exactly when no filler occurs |
| Cleaning.RemoveSpansNoPair | backend/modules/processor.py:41-42 | after removing the lazy `[..]` (or `(..)`) spans from a line, no opening bracket is followed anywhere by a closing one |
| Cleaning.RemoveSpansIdentity | backend/modules/processor.py:41-42 | a line in which no opening bracket precedes a closing one is left unchanged by span removal |
| Cleaning.CleanWithNoPair | backend/modules/processor.py:36-49 | the cleaned text has no `[` before a `]` and no `(` before a `)` |
| Cleaning.CleanWithFixpoints | backend/modules/processor.py:36-49 | cleaning leaves a text unchanged exactly when it is normalised, holds no filler word and has no bracket or parenthesis pair |
| Processor.CleanText | backend/modules/processor.py:28-51 | `clean_text` gives a single-spaced, stripped text, no longer than the input, with no `[`…`]` or `(`…`)` pair left |
| Processor.CleanTextFixpoints | backend/modules/processor.py:28-51 | `clean_text` is the identity exactly on texts that are normalised, free of the listed fillers and free of bracket and parenthesis pairs |
| Processor.SegmentBySentences | backend/modules/processor.py:53-57 | every sentence is non-empty, has no whitespace at either end and holds none of `.`, `!`, `?` |
| Processor.SegmentDotted | backend/modules/processor.py:53-57 | splitting pieces that were written out each followed by a period gives back exactly those pieces |
| Processor.SegmentThreeSentences | backend/modules/processor.py:53-57 | the three-sentence example text splits into its three sentences |
| Processor.PackFrom | backend/modules/processor.py:66-91 | the loop from an open section yields a greedy packing whose first section extends the open one |
| Processor.Pack | backend/modules/processor.py:64-91 | the sections together are the sentences in order, none is empty, each fits the budget unless it holds one sentence, and each closes only because the next sentence would overflow it |
| Processor.GreedyUnique | backend/modules/processor.py:69-91 | there is only one greedy packing of a sentence list, so the loop's result is determined by that description |
| Processor.SegmentBySections | backend/modules/processor.py:59-93 | every section has at least one sentence; one with two or more sentences has length within the budget; the length of its text is its sentences' lengths plus one space between each two |
| Processor.SectionsAreRuns | backend/modules/processor.py:59-93 | the sections are the runs of a greedy packing of the sentences, in order: section `i`'s text is the sentences of run `i` joined by single spaces, with their summed length and their count |
| Processor.SectionsCoverSentences | backend/modules/processor.py:64-91 | the sections' texts, joined, are the sentences joined, and the sentence counts sum to the number of sentences |
| Processor.SectionsAreGreedy | backend/modules/processor.py:64-91 | the sections are exactly those of any greedy packing of the sentences |
| Processor.KeepTokens | backend/modules/processor.py:110-113 | the kept tokens are exactly the alphanumeric tokens longer than two characters that are not stop words, in order |
| Processor.ExtractKeywords | backend/modules/processor.py:102-123 | every keyword is a kept token of the lower-cased text |
| Processor.VocabularyOrder | backend/modules/processor.py:116-118 | the frequency dict's keys are distinct and in order of first occurrence |
| Processor.KeywordsDistinct | backend/modules/processor.py:116-123 | the keywords are distinct |
| Processor.KeywordsOrdered | backend/modules/processor.py:120-123 | keywords are ordered by non-increasing frequency, ties by first occurrence |
| Processor.KeywordsBeatRest | backend/modules/processor.py:120-123 | every listed keyword ranks before every candidate left out |
| Processor.KeywordsSize | backend/modules/processor.py:121-123 | there are exactly `min(top_n, number of distinct candidates)` keywords |
| Processor.KeywordsPrefix | backend/modules/processor.py:121-123 | the keywords for a smaller `top_n` are a prefix of those for a larger one |
| Processor.ExtractKeyPhrases | backend/modules/processor.py:95-100 | key phrases are kept tokens of the lower-cased text, as keywords are |
| Processor.ChunksFlatten | backend/modules/processor.py:173-174 | the chunks together are the sentences, in order |
| Processor.ChunksCount | backend/modules/processor.py:171-174 | every chunk but the last has exactly `chunk_size` sentences, and the chunk count is the ceiling of `n / chunk_size` |
| Processor.ChunkCountBound | backend/modules/processor.py:171 | with `chunk_size = max(2, n // 5)` there are never more than seven chunks |
| Processor.SimplifiedNotes | backend/modules/processor.py:157-186 | the simplified notes are empty exactly when the text has no sentence |
| Processor.NotesShape | backend/modules/processor.py:165-186 | the notes are the header line followed by three lines per chunk (title, first 200 characters, blank), at most seven chunks, covering all sentences |
| Processor.ProcessTranscript | backend/modules/processor.py:125-155 | the original text is kept; the cleaned text is `clean_text` of it, and the sections, key phrases, keywords, simplified notes, word count and sentence count are all taken from the cleaned text; the cleaned text is normalised; the section count is the number of sections and their sentence counts sum to the sentence count; key phrases are a prefix of the keywords; there are at most 10 and 15 of them; the word count is 0 exactly when the cleaned text is empty; the notes are empty exactly when there is no sentence |
| Processor.CombineSegments | backend/modules/processor.py:188-192 | every segment's text is kept, a missing one as empty, with one space between each two: the length is the texts' total length plus one less than the number of segments |
| Processor.CombineSegmentsWords | backend/modules/processor.py:188-192 | the combined text has exactly the words of the segments' texts, in order, a missing text counting as empty |
| Ranking.Rank | backend/modules/summarizer.py:151 | the ranking is a permutation of the indices, ordered by descending score with ties in index order |
| Ranking.RankedUnique | backend/modules/summarizer.py:151 | two such orderings of the same indices are equal, so the stable sort's result is determined |
| Ranking.TopInOrder | backend/modules/summarizer.py:153-156 | the chosen indices are in increasing order and are exactly the first `k` of the ranking |
| Ranking.TopBeatsRest | backend/modules/summarizer.py:151-156 | every chosen index outranks every index left out |
| Ranking.TopSize | backend/modules/summarizer.py:154-155 | exactly `min(k, n)` indices are chosen |
| Scoring.ScoreIsHalfPoints | backend/modules/summarizer.py:37-68 | the half-point score is exactly twice the float score formula, for every sentence, table and position |
| Scoring.ScoreBounds | backend/modules/summarizer.py:41-68 | a sentence of fewer than four words scores 0; no score is below -1.0; a sentence of at most 50 words never scores below 0 |
| Scoring.MarkerHitsCount | backend/modules/summarizer.py:14-22 | each importance marker that occurs adds once, so the marker part is 2.0 times the number of distinct markers found |
| Scoring.PositionThresholds | backend/modules/summarizer.py:147 | the position thresholds 0.2 and 0.9 on `i / n` are the integer tests `5*i < n` and `10*i > 9*n` |
| Compression.RStripTerminals | backend/modules/summarizer.py:77 | `rstrip('.!?')` removes exactly the trailing run of terminators |
| Compression.RemoveOpeners | backend/modules/summarizer.py:79-85 | each opening pattern is applied once, in order; the result is a stripped part of the input |
| Compression.CompressSentence | backend/modules/summarizer.py:74-89 | the compressed sentence is stripped, no longer than the input, a capitalised part of it, with no more words |
| Compression.CompressKeepsTail | backend/modules/summarizer.py:74-89 | the compressed sentence is the capitalised, stripped end of the sentence after stripping and dropping trailing terminators: only a prefix and trailing whitespace are lost |
| Compression.RemoveOpenersTail | backend/modules/summarizer.py:79-85 | removing the openings leaves the input less a prefix and trailing whitespace |
| Compression.MatchOpenerSound | backend/modules/summarizer.py:79-84 | when an opening matches, the matched prefix spells one alternative of each group, ignoring case, with whitespace between groups and then the tail `\s+` or `\s*,?\s*` |
| Compression.MatchOpenerComplete | backend/modules/summarizer.py:79-84 | an opening whose alternatives are non-empty and start with a non-space matches whenever some prefix of the text is in that language, as backtracking guarantees |
| Compression.MatchOpenerGreedyEnd | backend/modules/summarizer.py:79-84 | a match ends where the greedy `\s+`, `\s*` and `,?` stop: no whitespace follows it, and a comma follows only if the tail already took one |
| Compression.MatchOpenerLeading | backend/modules/summarizer.py:79-84 | a one-group opening matches a sentence that starts, in any case, with one of its alternatives followed by a space |
| Compression.CompressPlain | backend/modules/summarizer.py:74-89 | a stripped sentence with no trailing terminator and no opening to remove is only capitalised |
| Compression.CompressRepeatedOpener | backend/modules/summarizer.py:79-85 | each opening is removed once: "so so it works." compresses to "So it works" |
| Summarizer.SummarySentences | backend/modules/summarizer.py:125-126 | the split after `.`, `!` or `?` yields stripped, non-empty sentences, all but the last ending with a terminator |
| Summarizer.SentenceWords | backend/modules/summarizer.py:125-126 | the sentences together hold exactly the words of the text, in order |
| Summarizer.EndWithPeriod | backend/modules/summarizer.py:108-109 | a non-empty summary ends with `.`, and only a missing final period is added |
| Summarizer.MergeSummary | backend/modules/summarizer.py:91-110 | a non-empty merged summary ends with `.` |
| Summarizer.MergeWords | backend/modules/summarizer.py:91-110 | merging never adds words |
| Summarizer.MergeIgnoresRepeat | backend/modules/summarizer.py:96-102 | a sentence whose five-word prefix was already seen does not change the merge: the first one is kept |
| Summarizer.Summarize | backend/modules/summarizer.py:116-170 | on the short path the summary is empty only for the empty text and never longer than it; on the long path a non-empty summary ends with `.` |
| Summarizer.SummarizeNonEmpty | backend/modules/summarizer.py:125-167 | a non-empty text is never summarised to nothing when each of its sentences keeps something after compression: the short path keeps the compression or the text, and on the long path the fallback merge of the first three sentences and the merge of the two best are both non-empty, each led by a compressible sentence that opens its own near-duplicate group |
| Summarizer.SummarizeKeepsPlain | backend/modules/summarizer.py:125-131 | a short text that is stripped, has no trailing terminator, no spoken opening and an initial that `upper()` keeps comes back unchanged |
| Summarizer.SummarizeShortText | tests/test_summarizer.py:29-33 | `summarize("Short text")` is `"Short text"` |
| Summarizer.ShortSummary | backend/modules/summarizer.py:129-131 | the short-path summary is empty only for the empty text, and is never longer nor wordier than the text |
| Summarizer.SummarizeWords | backend/modules/summarizer.py:116-170 | the summary never has more words than the text |
| Summarizer.SummaryPicksBest | backend/modules/summarizer.py:151-156 | between two and five sentences are chosen, and each chosen one outscores, or ties earlier than, each one left out |
| Summarizer.SummarizeSection | backend/modules/summarizer.py:246-256 | the section gets a "summary"; every other key is copied unchanged; a text under 20 words is its own summary; no summary has more words than the text; a text that is not a string is stored as the summary |
| Summarizer.SummarizeSections | backend/modules/summarizer.py:244-257 | the result has one section per input section, each summarised in place |
| Summarizer.SummarizeSectionsIdempotent | backend/modules/summarizer.py:244-257 | summarising the sections twice is the same as once |
| Bullets.Shape | backend/modules/summarizer.py:211-218 | a kept candidate has 4 to 18 words and is stripped |
| Bullets.CloseSentence | backend/modules/summarizer.py:226-227 | the point ends with a terminator and only a missing one is appended |
| Bullets.Eligible | backend/modules/summarizer.py:196-203 | the scored sentences are exactly those of at least four words, in text order |
| Bullets.PointsFromReference | backend/modules/summarizer.py:207-231 | the loop yields the shaped candidates, de-duplicated by five-word prefix, the first `max(num_points, 1)` of them, each closed |
| Bullets.PointsShape | backend/modules/summarizer.py:207-231 | at most `max(num_points, 1)` points, each of 4 to 18 words ending with a terminator |
| Bullets.ExtractBulletPoints | backend/modules/summarizer.py:180-234 | for a text with a sentence, the points are the shaped candidates, best first, de-duplicated by five-word prefix, the first `max(num_points, 1)` of them, each closed with a terminator |
| Bullets.BulletPoints | backend/modules/summarizer.py:180-234 | no more than `max(num_points, 1)` points, none for a text without words, each of 4 to 18 words ending with `.`, `!` or `?` |
| Bullets.BulletKeysDistinct | backend/modules/summarizer.py:220-223 | no two points share their lower-cased five-word prefix, taken before the period is added |
| Transcriber.CombineSegments | backend/modules/transcriber.py:252-267 | the result is the non-empty contributions joined by single spaces; its words are those of all contributions in order; it is empty exactly when every contribution is empty; with only dict segments it is stripped |
| Transcriber.CollectTexts | backend/modules/transcriber.py:262-266 | the loop collects exactly the non-empty contributions, in segment order |
| Transcriber.Contribution | backend/modules/transcriber.py:264 | a dict segment contributes its stripped text, or nothing when the key is missing |
| Transcriber.Parent | backend/modules/transcriber.py:45 | a path is its directory part followed by its final name |
| Transcriber.Stem | backend/modules/transcriber.py:165 | a name is its stem followed by its suffix, and a non-empty name has a non-empty stem |
| Transcriber.ExtractAudioPath | backend/modules/transcriber.py:45-60 | an audio suffix returns the path unchanged; otherwise the result ends with `.mp3` after a prefix of the path |
| Transcriber.ExtractAudioIdempotent | backend/modules/transcriber.py:45-60 | the path decision applied to its own result changes nothing |
| Transcriber.ExtractAudioExamples | backend/modules/transcriber.py:45-60 | "test.mp3" is kept and "test.mp4" becomes "test.mp3" |
| Transcriber.ExtractAudioLeavesDirectory | backend/modules/transcriber.py:57 | for "notes.d/lecture" the path as written is "notes.mp3", outside the input's directory, where the path beside the input is "notes.d/lecture.mp3" |
| Transcriber.AudioPathAgrees | backend/modules/transcriber.py:45-60 | when the final name has a suffix, the path as written equals the path beside the input |
| Transcriber.AudioPathBeside | backend/modules/transcriber.py:45-60 | the corrected path decision: an audio path is kept; otherwise the result keeps the input's directory and stem and has suffix `.mp3` |
| Transcriber.ConvertedSameDirectory | backend/modules/transcriber.py:57 | the corrected path keeps the input's directory and stem and has suffix `.mp3` |
| Transcriber.TopicOf | backend/modules/transcriber.py:169-171 | the topic is stripped and has no `_` |
| Transcriber.MockTopic | backend/modules/transcriber.py:165-171 | the topic taken from the file name is stripped and has no `_` |
| Transcriber.UploadTopic | backend/modules/transcriber.py:165-171 | for a stored upload `<dir>/<job id>_<title><ext>`, the topic is the title with `_` read as spaces, stripped, and a clean title comes back unchanged |
| Transcriber.MockDuration | backend/modules/transcriber.py:218-222 | the duration is `max(30, size // 50000)`, at least 30, and 60 when the size cannot be read |
| Transcriber.MockSegments | backend/modules/transcriber.py:224-231 | six segments, the first introducing the topic and the last ending at the duration |
| Transcriber.MockSegmentsTimeline | backend/modules/transcriber.py:224-231 | ids 0 to 5 in order, each segment ending where the next starts, from 0 to the duration; every segment has start at most end exactly when the duration is at least 50 |
| Transcriber.MockTextShape | backend/modules/transcriber.py:174-215 | the stripped mock text opens with "Lecture: " and the topic and closes with "today?" |
| Transcriber.MockTranscription | backend/modules/transcriber.py:160-238 | the text opens with the lecture line for the file's topic; six segments, the first naming the topic; the last ends at the duration, which is at least 30; the language is "en" |
| NoteGenerator.PointLines | backend/modules/note_generator.py:110-111 | line `k` is `f"{i+k}. {points[k]}\n"` |
| NoteGenerator.PointLineRoundTrip | backend/modules/note_generator.py:111 | a key-point line reads back as its number and its point |
| NoteGenerator.KeyPointsNumbered | backend/modules/note_generator.py:109-112 | the key-point lines are numbered 1 to n in input order and carry the points |
| NoteGenerator.KeywordsListed | backend/modules/note_generator.py:115-117 | the keyword lines list exactly the first ten keywords, in order |
| NoteGenerator.Truncate | backend/modules/note_generator.py:125-126 | text of at most 300 characters is kept; longer text becomes its first 300 characters plus `...` |
| NoteGenerator.TopicBlocks | backend/modules/note_generator.py:122-129 | topic `k` is its `### Topic` heading and its rendered text |
| NoteGenerator.TopicsShown | backend/modules/note_generator.py:121-129 | at most five topics, headed `### Topic 1` on, each text verbatim or cut to 300 characters plus `...` |
| NoteGenerator.BuildMarkdown | backend/modules/note_generator.py:78-145 | the note starts with the title as a level-one heading |
| NoteGenerator.StripInline | backend/modules/note_generator.py:226-227 | the inline pass never lengthens text and leaves none of `*`, `_`, `[`, `]`, `(`, `)` |
| NoteGenerator.ExtractPlainText | backend/modules/note_generator.py:221-228 | the plain text is never longer than the Markdown and holds no markup character |
| NoteGenerator.ExtractPlainTextLongestFirst | backend/modules/note_generator.py:221-228 | the corrected extraction, heading markers removed longest first, is likewise never longer than the Markdown and holds no markup character |
| NoteGenerator.StripInlineIdentity | backend/modules/note_generator.py:226-227 | the inline pass is the identity on text without markup characters |
| NoteGenerator.PlainTextIdentity | backend/modules/note_generator.py:225-228 | the plain text of text with no markup character and no `"# "` is that text |
| NoteGenerator.MissingReadsAsDefault | backend/modules/note_generator.py:91-143 | a missing entry reads as its default: the note equals the note built with `'N/A'`, `'Well-organized lecture notes'`, `0` and empty lists filled in |
| NoteGenerator.GenerateNoteContent | backend/modules/note_generator.py:34-76 | the returned Markdown is the built note, starting with the title heading; the returned text is `_extract_plain_text` of it as written (see Findings), no longer and free of markup characters |
| NoteGenerator.GenerateNoteContentIntended | backend/modules/note_generator.py:34-76 | the same Markdown, with its plain text taken by the corrected extraction that removes heading markers longest first, no longer and free of markup characters |
| NoteGenerator.AsWrittenHeadings | backend/modules/note_generator.py:225 | with `"# "` removed first, a level-1 heading loses its marker but levels 2 and 3 keep all but one `#` |
| NoteGenerator.PlainTextIdentityLongestFirst | backend/modules/note_generator.py:225-228 | with the markers removed longest first, text with no markup character and no `"# "` is still its own plain text |
| NoteGenerator.LongestFirstHeadings | backend/modules/note_generator.py:225 | removing the markers longest first turns headings of levels 1 to 3 into their bare text |
| NoteGenerator.SummaryHeadingKeepsHash | backend/modules/note_generator.py:105 | the note's own `## Summary` heading comes out as `#Summary` as written, and as `Summary` longest first |

## Left out

- Audio and speech: `transcribe`, Whisper and the speech-recognition fallback, `AudioSegment`
  decoding and export, temporary files and `save_transcript`. Only the path that `extract_audio`
  chooses is modelled, and `transcribe` is left out because it only picks between these I/O
  paths and the mock.
- `_format_segments`: it rounds float timestamps.
- Float durations from a real transcription. The mock's `int(duration * 0.8)` is modelled in
  exact arithmetic as `4*d/5`; the rounding of the float product is not modelled.
- File export and foreign renderers: `export_markdown`, `export_pdf`, `export_docx`,
  `export_all_formats`, and the HTML from `markdown.markdown` inside `generate_note_content`.
- Logging, `datetime.now()` (the timestamp is an input) and `os.path.getsize` (the size is an
  input).
- The exception handlers of `summarize` and `extract_bullet_points`, which return the text or
  `[]` on an error the model's total functions cannot raise. The handler of
  `summarize_sections` is modelled for a non-string text, the only error its body can raise.
- `min_length` and `max_length` in `summarize` and `summarize_sections`: they are accepted and
  never used.
- Non-ASCII case mapping and `str.title` beyond ASCII letters.
- pathlib's treatment of `.` and `..` components and of repeated slashes inside a path. A path is
  split at its last `/` after trailing slashes are dropped.
- In `summarize_sections`, the handler appends the input dict itself, so a later change to one
  would show in the other. Values are immutable here.
- In `combine_segments`, a dict whose `text` value is not a string raises on `.strip()`; the model
  takes `text` to be a string or missing.
- The plain-text version of the whole note is related to the Markdown by `GenerateNoteContent`
  and its lemmas, but no lemma follows the inline pass through every line of `_build_markdown`.
- Processor.ExtractKeywords: its contract states membership only. The ordering, distinctness and
  size promises are the separate lemmas `KeywordsOrdered`, `KeywordsDistinct`, `KeywordsSize` and
  `KeywordsBeatRest`.
- Summarizer.SummarizeWords: the summary is shown never to be wordier than the text, not shorter.
  The docstring of `summarize` (backend/modules/summarizer.py:117-119) promises a compressed
  summary, but two long sentences that both get chosen are both kept whole.

## Findings

| source | as written | input that shows it | evidently intended | confidence | as-written member | corrected member |
|---|---|---|---|---|---|---|
| backend/modules/transcriber.py:57 | `file_path.rsplit(".", 1)[0] + ".mp3"` cuts at the last dot of the whole path, which can lie in a directory name | "notes.d/lecture" gives "notes.mp3", a file in the parent directory | the file's stem with `.mp3`, beside the input: "notes.d/lecture.mp3" | not executed | Transcriber.ExtractAudioLeavesDirectory | Transcriber.ConvertedSameDirectory |
| backend/modules/note_generator.py:225 | `"# "` is removed before `"## "` and `"### "`, so those never match | the note's own "## Summary" heading gives "#Summary" | every heading marker removed: "Summary" | not executed | NoteGenerator.AsWrittenHeadings | NoteGenerator.LongestFirstHeadings, NoteGenerator.GenerateNoteContentIntended |

`ExtractAudioPath`, `ExtractPlainText` and `GenerateNoteContent` follow the code as written.
`AudioPathBeside` and `ExtractPlainTextLongestFirst` are the corrected definitions, and
`GenerateNoteContentIntended` is the note content with its plain text taken from the corrected
extraction; `SummaryHeadingKeepsHash` shows the two extractions differ on the note's own
`## Summary` heading. `AudioPathAgrees` shows that the two audio paths agree
whenever the final name has a suffix.
