# Subtitle extraction and translation, in Dafny

This project models the logic at the centre of the extract-subtitle web
application and proves properties of that model. It leaves out the Flask
glue. It covers three pieces.

- **The subtitle translator** (`app/services/translator.py`), in module `Translator`:
  - the language-code normaliser and its alias table;
  - the line-preserving chunker `_chunk_text`;
  - the block-by-block SRT rewriter `translate_srt`, with its source-language
    short cut and its per-block fallback.

  The translation service is an oracle (`Engine`): two total functions whose
  answer is a `Result`. A `Failure` stands for a raised exception.
- **The extraction job** (`app/services/subtitle_extractor.py`), in module `Extraction`:
  - `_format_timestamp`;
  - the SRT writing loop of `extract_subtitles`, with the progress it commits;
  - the status transitions of `process_extraction`;
  - the record as the dashboard creates it (`app/main/routes.py`).

  The job record is a class whose fields the methods update. Its ghost field
  `commits` logs the (status, progress) pair stored at every database commit,
  so that properties of the whole progress history can be stated. The speech
  recogniser is an oracle passed to the extractor: it takes the media path,
  language and task and returns timed segments or fails. Files written are
  kept in a map from path to content.
- **The language table** (`app/config/languages.py`), in module `Languages`.

Supporting modules:
- `Text`: Python's `str.isspace`, `strip`, `lower`, `replace`, `split('\n')` and
  `'\n'.join`, and `re.split(r'\n\s*\n', ...)`, on `seq<char>`.
- `Decimal`: the notations `f"{n:d}"` and `f"{n:0Wd}"`.
- `Wrappers`: `Option` and `Result`.

Loops in the source are methods with loops here. Each is proved equal to a
specification function, and the properties are proved about that function:
- `Translator.GroupAndJoin`, `DetectSourceLanguage`, `TranslateEach` and `RewriteAll`;
- the extractor's `WriteSrt`.

Time offsets are handled in two steps. `FormatSeconds` follows the source's
own floor divisions and remainders on exact reals. `SourceFieldsAreMillisFields`
proves this is the same as splitting the offset truncated to whole
milliseconds. Segments are therefore stored with millisecond offsets.

One fact from the code: normalisation lower-cases a code before looking it
up, and every alias key holds an upper-case letter. So the alias table is
never used, and `pt-BR` becomes `pt_br` (`NormalizeIsCharwise`,
`NormalizeBrazilianPortuguese`).

`_chunk_text('')` returns `['']`, not an empty list (`ChunksOfEmptyText`).

## Model

| member | source | states |
|---|---|---|
| Languages.SupportedLanguagesShape | app/config/languages.py:1-23 | The table lists exactly `en`, `pt_BR` and `es`. Every entry has the five fields, and its `code` is its own key. |
| Languages.GetLanguageName | app/config/languages.py:25-27 | The display name for a listed code, the code itself otherwise. The result equals the code exactly when the code is not listed. |
| Languages.GetLanguageFlag | app/config/languages.py:29-31 | The entry's flag for a listed code, the globe otherwise. The result is the globe exactly when the code is not listed. |
| Languages.GetWhisperModel | app/config/languages.py:33-35 | `base` for every code. |
| Translator.NewSubtitleTranslator | app/services/translator.py:23-25 | Definition only: a translator holds its service and a chunk limit of 5000. |
| Translator.NormalizeLanguageCode | app/services/translator.py:27-36 | An empty code gives `en`. Any result is non-empty, has no `-` and no upper-case letter. |
| Translator.AliasKeysHaveUpper | app/services/translator.py:10-21 | Every alias key contains an upper-case letter. |
| Translator.NormalizeIsCharwise | app/services/translator.py:33-36 | A non-empty code keeps its length, and each character is lower-cased or, if `-`, becomes `_`. The alias lookup never applies. |
| Translator.NormalizeBrazilianPortuguese | app/services/translator.py:27-36 | `pt-BR` and `pt_BR` both normalise to `pt_br`, not to the table's `pt`. |
| Translator.NormalizeIdempotent | app/services/translator.py:27-36 | Normalising a normalised code changes nothing. |
| Translator.ValidateLanguageCode | app/services/translator.py:38-46 | Definition only: a code is supported exactly when the probe translation of `test` into it does not raise. |
| Translator.DetectLanguage | app/services/translator.py:48-55 | `None` exactly when the service raises; otherwise the normalisation of the service's answer, a non-empty code that normalisation leaves unchanged. |
| Translator.GroupLines | app/services/translator.py:65-77 | Definition only: the lines grouped greedily as the loop of `_chunk_text` groups them; no group is empty. |
| Translator.GroupLinesConcat | app/services/translator.py:60-79 | The groups laid end to end are the open group followed by the remaining lines: nothing is dropped or reordered. |
| Translator.GroupLinesWithinLimit | app/services/translator.py:65-74 | Every group's line lengths add up to at most the limit, unless the group is a single line. |
| Translator.GroupLinesGreedy | app/services/translator.py:67-71 | A group is closed only when the next line would push it past the limit. |
| Translator.Chunks | app/services/translator.py:57-79 | Definition only: the text's lines, grouped greedily, each group joined with `\n`. |
| Translator.ChunkLines | app/services/translator.py:57-79 | Splitting each chunk on newlines gives back its group of lines. |
| Translator.ChunksRejoin | app/services/translator.py:57-79 | Joining the chunks with `\n` reproduces the text, and there is always at least one chunk. |
| Translator.ChunksOfEmptyText | app/services/translator.py:57-79 | The empty text gives the single chunk `''`. |
| Translator.ChunksAreWholeLines | app/services/translator.py:60-79 | The chunks' lines, in order, are exactly the text's lines: no line is cut. |
| Translator.ChunksWithinLimit | app/services/translator.py:65-74 | Each chunk's line lengths (newlines excluded) add up to at most `max_chunk_length`, unless the chunk is one line longer than the limit. |
| Translator.ChunksGreedy | app/services/translator.py:65-74 | For every chunk but the last, the next chunk's first line would not have fitted into it. |
| Translator.GroupAndJoin | app/services/translator.py:61-77 | The accumulator loop returns the joined greedy groups of the lines. |
| Translator.ChunkText | app/services/translator.py:57-79 | `_chunk_text` returns the greedy chunks; they rejoin to the text and are never empty. |
| Translator.HasSampleText | app/services/translator.py:95-98 | Definition only: the block has at least three lines and its text lines, joined and stripped, are not blank. |
| Translator.SampleText | app/services/translator.py:94-100 | A non-blank text when there is one; `None` exactly when no block has text. |
| Translator.SampleTextIsFirst | app/services/translator.py:94-100 | When block `k` is the first block with text, the sample is that block's stripped text lines: the loop breaks at the first such block. |
| Translator.SourceLanguage | app/services/translator.py:92-100 | Definition only: detection on the sample text of the stripped content's blocks, `None` when there is none. |
| Translator.DetectSourceLanguage | app/services/translator.py:93-100 | Detection runs on the first block with text and only on it; `None` when there is no such block or the service raises. |
| Translator.TranslateChunks | app/services/translator.py:129-135 | A result exactly when every chunk's call succeeds; then it holds each chunk's translation, in order. |
| Translator.TranslateEach | app/services/translator.py:129-135 | The chunk loop calls the service once per chunk in order and stops at the first failure. |
| Translator.TranslatedTextLines | app/services/translator.py:120-147 | A block's replacement text lines are never empty when its text lines are not. When the text is not blank and every chunk's translation succeeds, the new lines joined with `\n` are the chunks' translations joined with `\n`. |
| Translator.TranslateTextLines | app/services/translator.py:123-145 | Non-blank text is chunked, translated and split back into lines; the lines are `TranslatedTextLines`: the translations joined and re-split on success, the original lines when any chunk fails. |
| Translator.RewriteBlockShape | app/services/translator.py:110-150 | A block of fewer than three lines yields nothing. Otherwise the index and timing lines come first, unchanged, and an empty line closes the block. A blank or failed text keeps exactly its original lines; a translated text's lines, joined with `\n`, are the chunks' translations joined with `\n`. |
| Translator.RewriteBlock | app/services/translator.py:110-150 | Definition only: nothing for a block of fewer than three lines; otherwise its index and timing lines, its translated text lines and an empty line. |
| Translator.RewriteBlocks | app/services/translator.py:107-150 | Definition only: the rewrites of the blocks, one after the other. |
| Translator.TranslateBlock | app/services/translator.py:110-150 | One turn of the block loop contributes exactly the rewritten block. |
| Translator.RewriteBlocksAppend | app/services/translator.py:110-150 | Blocks are rewritten one at a time, in order, independently of each other. |
| Translator.RewriteAll | app/services/translator.py:107-150 | The block loop produces the concatenation of the rewritten blocks. |
| Translator.FinishDocument | app/services/translator.py:153 | The output is the stripped join of the lines followed by one newline; before that newline there is no whitespace at either end. |
| Translator.TranslateSrtOutcome | app/services/translator.py:86-158 | Definition only: an error for a rejected target; the content itself when the detected source language is the target; otherwise every block rewritten and the document finished. |
| Translator.TranslateSrtOutcomeCases | app/services/translator.py:86-158 | The only error is an unsupported target. A success reports the detected source language, returns the content untouched when that language is the target, and otherwise ends in a newline. |
| Translator.TranslateSrt | app/services/translator.py:81-158 | `translate_srt` computes exactly the outcome above. |
| Translator.IdentityEngineKeepsText | app/services/translator.py:120-142 | With a service that hands back its input, a block's text lines come back unchanged: chunking and rejoining lose nothing. |
| Translator.IdentityEngineKeepsChunks | app/services/translator.py:129-135 | With a service that hands back its input, the translated chunks are the chunks. |
| Translator.IdentityEngineKeepsBlock | app/services/translator.py:110-150 | With a service that hands back its input, every kept block comes out line for line and closed by a blank line. |
| Translator.IdentityEngineKeepsBlocks | app/services/translator.py:107-150 | With a service that hands back its input, the rewrite is the kept blocks' lines, each block followed by an empty line. |
| Text.JoinSplit | app/services/translator.py:60 | Joining the pieces of `s.split(sep)` with `sep` gives back `s`. |
| Text.SplitBlocks | app/services/translator.py:107 | Definition only, also used for the split on line 94: the pieces between the leftmost non-overlapping matches of `\n\s*\n`; there is always at least one piece. |
| Text.SplitBlocksRejoin | app/services/translator.py:107 | The pieces, rejoined with the separators they were cut at, give back the text: nothing but the separators is lost. |
| Text.SplitBlocksHaveNoBlankLine | app/services/translator.py:107 | No piece of `re.split(r'\n\s*\n', s)` contains a blank line. |
| Text.Strip | app/services/subtitle_extractor.py:69 | The stripped text is empty exactly when the text is all whitespace; otherwise it neither starts nor ends with whitespace. |
| Text.StripIsTrimmedSlice | app/services/subtitle_extractor.py:69 | The stripped text is a slice of the text with only whitespace before and after it: `strip` removes whitespace at the ends and nothing else. |
| Decimal.NatToStringValue | app/services/subtitle_extractor.py:70 | The block number's decimal notation reads back as the number. |
| Decimal.ZeroPad | app/services/subtitle_extractor.py:89 | A padded field is all digits, at least the width long, and still denotes the number. |
| Decimal.ZeroPadWidth | app/services/subtitle_extractor.py:89 | A field below 10 to the width is written in exactly the width. |
| Extraction.TimestampFieldsRange | app/services/subtitle_extractor.py:84-88 | Minutes and seconds are below 60 and milliseconds below 1000. Hours·3600000 + minutes·60000 + seconds·1000 + milliseconds is the offset. |
| Extraction.SourceFields | app/services/subtitle_extractor.py:84-88 | Definition only: the four fields, computed with the source's floor divisions, remainders and truncation. |
| Extraction.FormatClock | app/services/subtitle_extractor.py:89 | Definition only: the four fields laid out as the f-string lays them out. |
| Extraction.FormatSeconds | app/services/subtitle_extractor.py:84-89 | Definition only: `_format_timestamp`, the source's fields laid out by the f-string. |
| Extraction.SourceFieldsAreMillisFields | app/services/subtitle_extractor.py:84-88 | The source's floor divisions and remainders give the fields of the offset truncated to whole milliseconds; hours is the floor of seconds/3600. |
| Extraction.FormatSecondsIsFormatTimestamp | app/services/subtitle_extractor.py:84-89 | `_format_timestamp(seconds)` is the timestamp of the offset's whole milliseconds. |
| Extraction.FormatClockShape | app/services/subtitle_extractor.py:89 | The timestamp is the hours padded to two or more digits, then `:`, two minute digits, `:`, two second digits, `,`, three millisecond digits. |
| Extraction.ParseFormatClock | app/services/subtitle_extractor.py:89 | Every field reads back from the timestamp text. |
| Extraction.ParseFormatTimestamp | app/services/subtitle_extractor.py:84-89 | Reading a timestamp back gives the offset's fields. |
| Extraction.FormatTimestampChars | app/services/subtitle_extractor.py:89 | A timestamp holds only digits, `:` and `,`. |
| Extraction.FormatTimestampLength | app/services/subtitle_extractor.py:89 | A timestamp has at least twelve characters, and exactly twelve when hours are below 100. |
| Extraction.TimingLine | app/services/subtitle_extractor.py:67-70 | Definition only: the start and end timestamps around ` --> `. |
| Extraction.ParseTimingLineOf | app/services/subtitle_extractor.py:67-70 | The timing line reads back as the start and end fields. |
| Extraction.TimingLineHasNoNewline | app/services/subtitle_extractor.py:67-70 | The timing line is a single line. |
| Extraction.SrtBlock | app/services/subtitle_extractor.py:67-70 | Definition only: the number, the timing line, the stripped text and a blank line, each ended by a newline. |
| Extraction.SrtText | app/services/subtitle_extractor.py:64-70 | Definition only: the blocks of the segments so far, block `k` numbered `k`. |
| Extraction.SrtBlockLines | app/services/subtitle_extractor.py:66-70 | A block's lines are its number, its timing line, the stripped text's lines and two empty lines. |
| Extraction.SrtBlockReadsBack | app/services/subtitle_extractor.py:66-70 | A block reads back as its number, its segment's two timestamps and its segment's stripped text, closed by two empty lines. |
| Extraction.NumberedBlocksAt | app/services/subtitle_extractor.py:66-70 | Block `k` (from 0) is segment `k`'s block carrying the number `k + 1`: numbers run 1..N in transcription order. |
| Extraction.SrtTextIsNumberedBlocks | app/services/subtitle_extractor.py:64-70 | The file is the numbered blocks, one after the other, with nothing between them. |
| Extraction.Basename | app/services/subtitle_extractor.py:59 | The base name is a suffix of the path and holds no `/`. |
| Extraction.SplitextRoot | app/services/subtitle_extractor.py:59 | The root is a prefix of the path. When shorter, it stops at a `.` after which no `.` or `/` follows. |
| Extraction.SplitextRootExtension | app/services/subtitle_extractor.py:59 | The root differs from the path exactly when the path has an extension: some dot of its last component follows a character of that component other than a dot. The removed dot is then the last one, and a non-dot of the component precedes it. |
| Extraction.SrtFilenameShape | app/services/subtitle_extractor.py:59 | The SRT name holds no `/` and ends in `.srt`. The part before is the base name itself exactly when the base name has no extension; otherwise it is the base name cut at its last dot, which follows some non-dot character. |
| Extraction.SrtFilename | app/services/subtitle_extractor.py:59 | Definition only: the base name's root followed by `.srt`. |
| Extraction.PathJoin | app/services/subtitle_extractor.py:60 | Definition only: `os.path.join` on POSIX for two parts. |
| Extraction.BasenameOfJoin | app/services/subtitle_extractor.py:104 | Joining the upload folder in front of a name does not change its base name. |
| Extraction.SrtFilenameOfJoin | app/services/subtitle_extractor.py:59 | The SRT name of a stored upload depends only on its stored name. |
| Extraction.WhisperLanguage | app/services/subtitle_extractor.py:40 | The recogniser language is the longest prefix of the target without `-`, and it stops only at a `-`. |
| Extraction.WhisperLanguageExamples | app/services/subtitle_extractor.py:40 | `pt-BR` is heard as `pt`, but `pt_BR` is passed on whole. |
| Extraction.WhisperTask | app/services/subtitle_extractor.py:48 | Definition only: `transcribe` for `en`, `translate` for any other language. |
| Extraction.TranscribeOnlyForEnglish | app/services/subtitle_extractor.py:40-48 | The task is `transcribe` exactly when the target is `en` or starts with `en-`; otherwise it is `translate`. |
| Extraction.SegmentProgress | app/services/subtitle_extractor.py:73 | Definition only: `50 + i/N·50`, on exact reals. |
| Extraction.SegmentProgressBounds | app/services/subtitle_extractor.py:73 | Per-segment progress lies in (50, 100], grows with the segment number, and is exactly 100 at the last segment. |
| Extraction.SegmentTrace | app/services/subtitle_extractor.py:66-75 | The commits of the segment loop after `k` segments, one per segment. |
| Extraction.SegmentTraceAt | app/services/subtitle_extractor.py:66-75 | The `m`-th commit of the segment loop reports `50 + (m+1)/N·50`. |
| Extraction.ExtractTrace | app/services/subtitle_extractor.py:36-75 | The commits of `extract_subtitles` are never empty: 10 first, then on success 50 and one per segment. |
| Extraction.ExtractTraceSuccess | app/services/subtitle_extractor.py:54-75 | After a successful transcription the last commit is 50 when there are no segments and the last segment's progress otherwise. |
| Extraction.JobTrace | app/services/subtitle_extractor.py:91-119 | The commits of `process_extraction` for a found record are never empty: 0, the commits of `extract_subtitles`, then 100 or the failure. |
| Extraction.JobTraceSuccessProgress | app/services/subtitle_extractor.py:91-113 | A successful job commits N + 4 values: 0, 10, 50, `50 + i/N·50` for each segment `i`, then 100. |
| Extraction.JobProgressNonDecreasing | app/services/subtitle_extractor.py:91-119 | Committed progress never decreases, on success or on failure. |
| Extraction.JobProgressInRange | app/services/subtitle_extractor.py:91-119 | Every committed progress value lies in [0, 100]. |
| Extraction.JobTraceEnds | app/services/subtitle_extractor.py:98-119 | A job starts at `processing` with 0 and stays `processing` until its last commit. That commit is `completed` at 100, or `failed` with the progress of the commit before it. |
| Extraction.JobTraceNoSegments | app/services/subtitle_extractor.py:63-75 | With no segments no per-segment update runs (no division by zero): the job commits 0, 10, 50, 100. |
| Extraction.NewJobLifecycle | app/services/subtitle_extractor.py:91-119 | A new record run once goes `pending`, `processing`, then `completed` on success or `failed` on failure, and makes no other move. |
| Extraction.WriteBlock | app/services/subtitle_extractor.py:67-70 | One write appends segment `i`'s block to the blocks of the first `i - 1` segments. |
| Extraction.ExtractionError | app/services/subtitle_extractor.py:82 | Definition only: the message of the re-raised exception, `Error extracting subtitles: ` followed by the error. |
| Extraction.SubtitleExtraction.constructor | app/main/routes.py:44-50 | A new record is `pending`, has an empty SRT name and no error, is not completed, and its log holds that one state. |
| Extraction.SubtitleExtraction.CommitSegmentProgress | app/services/subtitle_extractor.py:73-75 | The commit after segment `i` of `N` stores `50 + i/N·50` and extends the log by that one snapshot. |
| Extraction.SubtitleExtraction.Start | app/services/subtitle_extractor.py:100-102 | The record becomes `processing` at 0, is committed, and keeps its other fields. |
| Extraction.SubtitleExtraction.Complete | app/services/subtitle_extractor.py:109-113 | The record stores its SRT name and becomes `completed` at 100 with completion set; one commit; its error is kept. |
| Extraction.SubtitleExtraction.Fail | app/services/subtitle_extractor.py:117-119 | The record becomes `failed` with the error text; progress, SRT name and completion keep their values; one commit. |
| Extraction.SubtitleExtraction.Commit | app/services/subtitle_extractor.py:37 | A commit logs the current status and progress and changes no field. |
| Extraction.SubtitleExtractor.constructor | app/services/subtitle_extractor.py:13-19 | An extractor keeps its upload folder and recogniser and has written no files. |
| Extraction.SubtitleExtractor.Transcription | app/services/subtitle_extractor.py:45-51 | Definition only: the recogniser's answer for the path, the derived language and the derived task. |
| Extraction.SubtitleExtractor.ExtractSubtitles | app/services/subtitle_extractor.py:31-82 | It commits 10 and calls the recogniser with the derived language and task. On failure it returns the prefixed error, writes nothing, and leaves progress at 10. On success it commits 50 and one value per segment, writes the SRT text to the upload folder under the SRT name, and returns that name. The status is untouched. |
| Extraction.SubtitleExtractor.WriteTranscription | app/services/subtitle_extractor.py:54-75 | After a transcription: 50, then the file and the per-segment commits. |
| Extraction.SubtitleExtractor.WriteSrt | app/services/subtitle_extractor.py:64-75 | The `with` block stores the SRT text of all segments at the path and commits the per-segment progress in order. The last progress is 100 when there are segments; nothing else changes. |
| Extraction.SubtitleExtractor.ProcessExtraction | app/services/subtitle_extractor.py:91-119 | An unknown id changes nothing. For a known one the record's log grows by the job's trace. On success it ends `completed` at 100 with its SRT name and completion set, and the file is written. On failure it ends `failed` with the prefixed error text, its progress where the failure left it, and no file. |
| Extraction.SubtitleExtractor.Process | app/services/subtitle_extractor.py:98-119 | The same end state for a record that exists. |

## Left out

- Extraction.FormatSeconds: the offset is an exact non-negative real, so floating-point rounding is not modelled. In particular, `(seconds - int(seconds)) * 1000` on a float can print one millisecond less than the exact value. Negative offsets are excluded.
- Extraction.SegmentProgress: progress is an exact real; the float rounding of line 73 of app/services/subtitle_extractor.py is not modelled.
- Extraction.Segment: segments carry offsets in whole milliseconds, that is, the truncation `FormatSecondsIsFormatTimestamp` shows the source prints. The recogniser's float seconds are not kept.
- Text.ToLower: only ASCII letters are lower-cased. Python's full Unicode case mapping is not modelled.
- Text.Strip: the whitespace set is Python's `str.isspace` for single code points. Strings are code-point sequences; the UTF-8 encoding of the written SRT file is not modelled.
- `Translator.Engine` and the recogniser are deterministic functions. A service that answers differently to the same call, or that times out, is not modelled.
- Whisper's other options are not modelled: `verbose`, `word_timestamps`, and the `large` model loaded in the constructor. So are model loading and `os.makedirs`.
- `save_file` is left out: `secure_filename`, the `datetime.now()` prefix and saving the upload are I/O outside the core.
- `completed_at` is a flag: the `datetime.utcnow()` value is not modelled.
- Logging is dropped everywhere.
- Extraction.SubtitleExtractor.ExtractSubtitles receives the record itself rather than looking it up again by id. In the source both lookups return the same session object.
- Extraction.SubtitleExtractor.ProcessExtraction: `jobs` stands for `SubtitleExtraction.query.get`.
- Extraction.SubtitleExtractor.WriteSrt: the file is built as a string and stored at the end of the `with` block. The partial file seen before the block closes is not modelled.
- Extraction.SubtitleExtractor.ExtractSubtitles: failures in file writing or in a commit (I/O exceptions) are not modelled. Only a recogniser failure takes the failure path.
- Extraction.SubtitleExtraction.constructor: the record's initial progress is taken as 0, because the column default in app/models.py is not part of this model.
- The background thread and the second failure handler around it in app/main/routes.py are concurrency outside a single sequential job run.
- Framework code: Flask routing, forms, authentication, the application factory and the babel locale selection.
- `get_whisper_model` is modelled (`GetWhisperModel`), but the extractor does not call it.
