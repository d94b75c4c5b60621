/**
 * The subtitle translator (app/services/translator.py): language-code
 * normalisation, the line-preserving chunker, and the block-by-block SRT
 * rewriter. The translation service is an oracle that may fail on any call.
 */
module Translator {
  import opened Wrappers
  import opened Text

  /** The translation service. `translate(text, target)` and `detect(text)`
      either answer or raise; a raise is a `Failure`. */
  datatype Engine = Engine(
    translate: (string, string) -> Result<string>,
    detect: string -> Result<string>)

  /** A `SubtitleTranslator`: its service and its `max_chunk_length`, both
      fixed when it is built. */
  datatype SubtitleTranslator = SubtitleTranslator(engine: Engine, maxChunkLength: nat)

  const DefaultMaxChunkLength: nat := 5000

  /** `SubtitleTranslator()` */
  function NewSubtitleTranslator(engine: Engine): SubtitleTranslator {
    SubtitleTranslator(engine, DefaultMaxChunkLength)
  }

  /** `LANGUAGE_MAP`: regional variants and their base codes. */
  const LanguageMap: map<string, string> := map[
    "pt-BR" := "pt", "pt_BR" := "pt",
    "zh-CN" := "zh", "zh_CN" := "zh",
    "zh-TW" := "zh", "zh_TW" := "zh",
    "en-US" := "en", "en_US" := "en",
    "en-GB" := "en", "en_GB" := "en"
  ]

  // ---------------------------------------------------------------------------
  // _normalize_language_code

  /** `_normalize_language_code`: `'en'` for an empty code; otherwise the code
      lower-cased with `-` replaced by `_`, looked up in `LanguageMap`. */
  function NormalizeLanguageCode(code: string): (r: string)
    ensures code == "" ==> r == "en"
    ensures r != "" && '-' !in r
    ensures forall i :: 0 <= i < |r| ==> !IsUpper(r[i])
  {
    if code == "" then "en"
    else
      var normalized := ReplaceChar(ToLower(code), '-', '_');
      if normalized in LanguageMap then LanguageMap[normalized] else normalized
  }

  /** What normalisation does to one character of a non-empty code. */
  function CanonicalChar(c: char): char {
    if c == '-' then '_' else LowerChar(c)
  }

  ghost predicate HasUpper(s: string) {
    exists i :: 0 <= i < |s| && IsUpper(s[i])
  }

  /** Every key of `LanguageMap` holds an upper-case letter. */
  lemma AliasKeysHaveUpper()
    ensures forall k :: k in LanguageMap ==> HasUpper(k)
  {
    forall k | k in LanguageMap
      ensures HasUpper(k)
    {
      assert |k| == 5 && IsUpper(k[3]);
    }
  }

  /** The lookup runs on a lower-cased string, so it never finds a key: a
      non-empty code is just lower-cased with `-` turned into `_`, and every
      alias in the table is dead. */
  lemma NormalizeIsCharwise(code: string)
    requires code != ""
    ensures |NormalizeLanguageCode(code)| == |code|
    ensures forall i :: 0 <= i < |code| ==> NormalizeLanguageCode(code)[i] == CanonicalChar(code[i])
  {
    var normalized := ReplaceChar(ToLower(code), '-', '_');
    AliasKeysHaveUpper();
    assert !HasUpper(normalized);
  }

  /** `'pt-BR'` and `'pt_BR'` both become `'pt_br'`, not the table's `'pt'`. */
  lemma NormalizeBrazilianPortuguese()
    ensures NormalizeLanguageCode("pt-BR") == "pt_br"
    ensures NormalizeLanguageCode("pt_BR") == "pt_br"
  {
    NormalizeIsCharwise("pt-BR");
    NormalizeIsCharwise("pt_BR");
  }

  /** Normalising a normalised code changes nothing. */
  lemma NormalizeIdempotent(code: string)
    ensures NormalizeLanguageCode(NormalizeLanguageCode(code)) == NormalizeLanguageCode(code)
  {
    var r := NormalizeLanguageCode(code);
    NormalizeIsCharwise(r);
    assert forall i :: 0 <= i < |r| ==> CanonicalChar(r[i]) == r[i];
  }

  // ---------------------------------------------------------------------------
  // _validate_language_code and _detect_language

  /** `_validate_language_code`: a probe translation of `'test'`; any raise
      means the code is not supported. */
  function ValidateLanguageCode(engine: Engine, code: string): bool {
    engine.translate("test", code).Success?
  }

  /** `_detect_language`: the service's answer, normalised; `None` when the
      service raises. */
  function DetectLanguage(engine: Engine, text: string): (r: Option<string>)
    ensures r.None? <==> engine.detect(text).Failure?
    ensures r.Some? ==> r.value != "" && NormalizeLanguageCode(r.value) == r.value
    ensures r.Some? ==> r.value == NormalizeLanguageCode(engine.detect(text).value)
  {
    match engine.detect(text)
    case Success(detected) =>
      NormalizeIdempotent(detected);
      Some(NormalizeLanguageCode(detected))
    case Failure(_) => None
  }

  // ---------------------------------------------------------------------------
  // _chunk_text

  /** The number of characters in `lines`, newlines not counted. */
  function TotalLength(lines: seq<string>): nat
    decreases |lines|
  {
    if lines == [] then 0 else TotalLength(lines[..|lines| - 1]) + |lines[|lines| - 1]|
  }

  lemma TotalLengthAppend(lines: seq<string>, line: string)
    ensures TotalLength(lines + [line]) == TotalLength(lines) + |line|
  {
    assert (lines + [line])[..|lines|] == lines;
  }

  /** The greedy grouping `_chunk_text` performs: `current` is the group being
      filled; a line that would push it past `maxLen` closes it (if it holds
      anything) and opens the next group. */
  function GroupLines(lines: seq<string>, maxLen: nat, current: seq<string>): (r: seq<seq<string>>)
    ensures forall i :: 0 <= i < |r| ==> r[i] != []
    decreases |lines|
  {
    if lines == [] then
      if current == [] then [] else [current]
    else if TotalLength(current) + |lines[0]| > maxLen then
      (if current == [] then [] else [current]) + GroupLines(lines[1..], maxLen, [lines[0]])
    else
      GroupLines(lines[1..], maxLen, current + [lines[0]])
  }

  /** The chunks `_chunk_text(text)` returns for a limit of `maxLen`. */
  function Chunks(text: string, maxLen: nat): seq<string> {
    JoinEach(GroupLines(Split(text, '\n'), maxLen, []), '\n')
  }

  ghost predicate NoNewlines(lines: seq<string>) {
    forall i :: 0 <= i < |lines| ==> '\n' !in lines[i]
  }

  /** The groups, laid end to end, are the open group followed by the lines. */
  lemma {:induction false} GroupLinesConcat(lines: seq<string>, maxLen: nat, current: seq<string>)
    ensures Concat(GroupLines(lines, maxLen, current)) == current + lines
    decreases |lines|
  {
    if lines == [] {
      if current != [] {
        assert Concat([current]) == current + Concat([current][1..]);
      }
    } else {
      assert lines == [lines[0]] + lines[1..];
      if TotalLength(current) + |lines[0]| > maxLen {
        var rest := GroupLines(lines[1..], maxLen, [lines[0]]);
        GroupLinesConcat(lines[1..], maxLen, [lines[0]]);
        assert Concat(rest) == [lines[0]] + lines[1..];
        if current != [] {
          var g := [current] + rest;
          assert g[1..] == rest;
          assert Concat(g) == current + Concat(rest);
          assert GroupLines(lines, maxLen, current) == g;
        } else {
          assert GroupLines(lines, maxLen, current) == rest;
        }
      } else {
        GroupLinesConcat(lines[1..], maxLen, current + [lines[0]]);
      }
    }
  }

  /** There is a group as soon as there is anything to group; the first group
      starts with the open group's first line. */
  lemma {:induction false} GroupLinesShape(lines: seq<string>, maxLen: nat, current: seq<string>)
    ensures current != [] || lines != [] ==> |GroupLines(lines, maxLen, current)| >= 1
    ensures current != [] ==> GroupLines(lines, maxLen, current)[0][0] == current[0]
    ensures current == [] && lines != [] ==> GroupLines(lines, maxLen, current)[0][0] == lines[0]
    decreases |lines|
  {
    if lines != [] {
      if TotalLength(current) + |lines[0]| > maxLen {
        GroupLinesShape(lines[1..], maxLen, [lines[0]]);
      } else {
        GroupLinesShape(lines[1..], maxLen, current + [lines[0]]);
      }
    }
  }

  /** Every group fits the limit, unless it is one line that alone exceeds it. */
  lemma {:induction false} GroupLinesWithinLimit(lines: seq<string>, maxLen: nat, current: seq<string>)
    requires TotalLength(current) <= maxLen || |current| == 1
    ensures forall i :: 0 <= i < |GroupLines(lines, maxLen, current)| ==>
      TotalLength(GroupLines(lines, maxLen, current)[i]) <= maxLen || |GroupLines(lines, maxLen, current)[i]| == 1
    decreases |lines|
  {
    if lines != [] {
      if TotalLength(current) + |lines[0]| > maxLen {
        GroupLinesWithinLimit(lines[1..], maxLen, [lines[0]]);
      } else {
        TotalLengthAppend(current, lines[0]);
        GroupLinesWithinLimit(lines[1..], maxLen, current + [lines[0]]);
      }
    }
  }

  /** Greedy: the first line of every group after the first would not have
      fitted into the group before it. */
  lemma {:induction false} GroupLinesGreedy(lines: seq<string>, maxLen: nat, current: seq<string>)
    ensures forall i :: 0 <= i < |GroupLines(lines, maxLen, current)| - 1 ==>
      TotalLength(GroupLines(lines, maxLen, current)[i]) + |GroupLines(lines, maxLen, current)[i + 1][0]| > maxLen
    decreases |lines|
  {
    if lines != [] {
      if TotalLength(current) + |lines[0]| > maxLen {
        var rest := GroupLines(lines[1..], maxLen, [lines[0]]);
        GroupLinesGreedy(lines[1..], maxLen, [lines[0]]);
        GroupLinesShape(lines[1..], maxLen, [lines[0]]);
        if current != [] {
          var g := [current] + rest;
          assert g[1..] == rest;
        }
      } else {
        GroupLinesGreedy(lines[1..], maxLen, current + [lines[0]]);
      }
    }
  }

  /** Lines free of newlines stay free of them in every group. */
  lemma {:induction false} GroupLinesNoNewlines(lines: seq<string>, maxLen: nat, current: seq<string>)
    requires NoNewlines(current) && NoNewlines(lines)
    ensures forall i :: 0 <= i < |GroupLines(lines, maxLen, current)| ==> NoNewlines(GroupLines(lines, maxLen, current)[i])
    decreases |lines|
  {
    if lines != [] {
      if TotalLength(current) + |lines[0]| > maxLen {
        GroupLinesNoNewlines(lines[1..], maxLen, [lines[0]]);
      } else {
        GroupLinesNoNewlines(lines[1..], maxLen, current + [lines[0]]);
      }
    }
  }

  /** Splitting a chunk gives back its group of lines. */
  lemma ChunkLines(text: string, maxLen: nat)
    ensures |Chunks(text, maxLen)| == |GroupLines(Split(text, '\n'), maxLen, [])|
    ensures forall i :: 0 <= i < |Chunks(text, maxLen)| ==>
      Split(Chunks(text, maxLen)[i], '\n') == GroupLines(Split(text, '\n'), maxLen, [])[i]
  {
    var groups := GroupLines(Split(text, '\n'), maxLen, []);
    GroupLinesShape(Split(text, '\n'), maxLen, []);
    GroupLinesNoNewlines(Split(text, '\n'), maxLen, []);
    forall i | 0 <= i < |groups|
      ensures Split(Join(groups[i], '\n'), '\n') == groups[i]
    {
      SplitJoin(groups[i], '\n');
    }
  }

  /** Joining the chunks with newlines gives back the text, and there is always
      at least one chunk (`['']` for the empty text). */
  lemma ChunksRejoin(text: string, maxLen: nat)
    ensures Join(Chunks(text, maxLen), '\n') == text
    ensures |Chunks(text, maxLen)| >= 1
  {
    var lines := Split(text, '\n');
    GroupLinesShape(lines, maxLen, []);
    GroupLinesConcat(lines, maxLen, []);
    assert [] + lines == lines;
    JoinJoinEach(GroupLines(lines, maxLen, []), '\n');
    JoinSplit(text, '\n');
  }

  lemma ChunksOfEmptyText(maxLen: nat)
    ensures Chunks("", maxLen) == [""]
  {
    ChunksRejoin("", maxLen);
  }

  /** No line is cut: the chunks' lines, in order, are the text's lines. */
  lemma ChunksAreWholeLines(text: string, maxLen: nat)
    ensures Concat(SplitEach(Chunks(text, maxLen), '\n')) == Split(text, '\n')
  {
    var lines := Split(text, '\n');
    ChunkLines(text, maxLen);
    GroupLinesConcat(lines, maxLen, []);
    assert SplitEach(Chunks(text, maxLen), '\n') == GroupLines(lines, maxLen, []);
  }

  /** Every chunk's line lengths add up to at most `maxLen`, unless the chunk
      is a single line longer than `maxLen`. */
  lemma ChunksWithinLimit(text: string, maxLen: nat)
    ensures forall i :: 0 <= i < |Chunks(text, maxLen)| ==>
      TotalLength(Split(Chunks(text, maxLen)[i], '\n')) <= maxLen
      || (|Split(Chunks(text, maxLen)[i], '\n')| == 1 && |Chunks(text, maxLen)[i]| > maxLen)
  {
    var c := Chunks(text, maxLen);
    var groups := GroupLines(Split(text, '\n'), maxLen, []);
    ChunkLines(text, maxLen);
    GroupLinesWithinLimit(Split(text, '\n'), maxLen, []);
    forall i | 0 <= i < |c|
      ensures TotalLength(Split(c[i], '\n')) <= maxLen || (|Split(c[i], '\n')| == 1 && |c[i]| > maxLen)
    {
      var g := Split(c[i], '\n');
      assert g == groups[i];
      if TotalLength(g) > maxLen {
        assert |g| == 1;
        assert g == [g[0]];
        JoinSplit(c[i], '\n');
        assert Join(g, '\n') == g[0];
        assert TotalLength(g) == TotalLength(g[..0]) + |g[0]|;
        assert g[..0] == [];
      }
    }
  }

  /** A chunk is closed only when the next line would not fit into it. */
  lemma ChunksGreedy(text: string, maxLen: nat)
    ensures forall i :: 0 <= i < |Chunks(text, maxLen)| - 1 ==>
      TotalLength(Split(Chunks(text, maxLen)[i], '\n'))
      + |Split(Chunks(text, maxLen)[i + 1], '\n')[0]| > maxLen
  {
    ChunkLines(text, maxLen);
    GroupLinesGreedy(Split(text, '\n'), maxLen, []);
  }

  /** One turn of the `_chunk_text` loop is one step of `GroupLines`. */
  lemma GroupLinesStep(lines: seq<string>, k: nat, maxLen: nat, current: seq<string>)
    requires k < |lines|
    ensures GroupLines(lines[k..], maxLen, current) ==
      if TotalLength(current) + |lines[k]| > maxLen then
        (if current == [] then [] else [current]) + GroupLines(lines[k + 1..], maxLen, [lines[k]])
      else
        GroupLines(lines[k + 1..], maxLen, current + [lines[k]])
  {
    assert lines[k..][1..] == lines[k + 1..];
  }

  /** The loop of `_chunk_text`: lines are added to the open chunk until the
      next one would push it past `maxLen`. */
  method GroupAndJoin(lines: seq<string>, maxLen: nat) returns (chunks: seq<string>)
    ensures chunks == JoinEach(GroupLines(lines, maxLen, []), '\n')
  {
    chunks := [];
    ghost var closed: seq<seq<string>> := [];
    var currentChunk: seq<string> := [];
    var currentLength := 0;
    for k := 0 to |lines|
      invariant currentLength == TotalLength(currentChunk)
      invariant chunks == JoinEach(closed, '\n')
      invariant closed + GroupLines(lines[k..], maxLen, currentChunk) == GroupLines(lines, maxLen, [])
    {
      var line := lines[k];
      GroupLinesStep(lines, k, maxLen, currentChunk);
      if currentLength + |line| > maxLen {
        ghost var rest := GroupLines(lines[k + 1..], maxLen, [line]);
        if currentChunk != [] {
          AppendAssoc(closed, [currentChunk], rest);
          JoinEachSnoc(closed, currentChunk, '\n');
          chunks := chunks + [Join(currentChunk, '\n')];
          closed := closed + [currentChunk];
        } else {
          assert [] + rest == rest;
        }
        currentChunk := [line];
        currentLength := |line|;
        assert TotalLength([line]) == |line| by {
          assert [line][..0] == [];
        }
      } else {
        TotalLengthAppend(currentChunk, line);
        currentChunk := currentChunk + [line];
        currentLength := currentLength + |line|;
      }
    }
    assert lines[|lines|..] == [];
    if currentChunk != [] {
      JoinEachSnoc(closed, currentChunk, '\n');
      chunks := chunks + [Join(currentChunk, '\n')];
      closed := closed + [currentChunk];
    }
    assert closed == GroupLines(lines, maxLen, []);
  }

  /** `_chunk_text`, with `max_chunk_length` passed in. */
  method ChunkText(text: string, maxLen: nat) returns (chunks: seq<string>)
    ensures chunks == Chunks(text, maxLen)
    ensures Join(chunks, '\n') == text && |chunks| >= 1
  {
    chunks := GroupAndJoin(Split(text, '\n'), maxLen);
    ChunksRejoin(text, maxLen);
  }

  // ---------------------------------------------------------------------------
  // translate_srt

  /** A block whose text lines (from the third line on) are not blank: the kind
      of block the source language is detected from. */
  predicate HasSampleText(block: string) {
    var lines := Split(block, '\n');
    |lines| >= 3 && Strip(Join(lines[2..], '\n')) != ""
  }

  /** The stripped text lines of the first block that has some. */
  function SampleText(blocks: seq<string>): (r: Option<string>)
    ensures r.Some? ==> r.value != ""
    ensures r.None? <==> forall i :: 0 <= i < |blocks| ==> !HasSampleText(blocks[i])
    decreases |blocks|
  {
    if blocks == [] then None
    else if HasSampleText(blocks[0]) then Some(Strip(Join(Split(blocks[0], '\n')[2..], '\n')))
    else
      var rest := blocks[1..];
      var r := SampleText(rest);
      NoneInTail(HasSampleText, blocks);
      r
  }

  /** When `s[0]` fails `f`, no element of `s` meets `f` exactly when no
      element of `s[1..]` does. */
  lemma NoneInTail<T>(f: T -> bool, s: seq<T>)
    requires |s| > 0 && !f(s[0])
    ensures (forall i :: 0 <= i < |s| ==> !f(s[i])) <==> (forall i :: 0 <= i < |s[1..]| ==> !f(s[1..][i]))
  {
    assert forall i :: 0 <= i < |s[1..]| ==> s[1..][i] == s[i + 1];
    assert forall i :: 1 <= i < |s| ==> s[i] == s[1..][i - 1];
  }

  /** One turn of the search: block `i` gives the sample, or the search
      goes on after it. */
  lemma SampleTextStep(blocks: seq<string>, i: nat)
    requires i < |blocks|
    ensures SampleText(blocks[i..]) ==
      if HasSampleText(blocks[i]) then Some(Strip(Join(Split(blocks[i], '\n')[2..], '\n')))
      else SampleText(blocks[i + 1..])
  {
    assert blocks[i..][0] == blocks[i];
    assert blocks[i..][1..] == blocks[i + 1..];
  }

  /** The sample is the stripped text of the first block that has some. */
  lemma {:induction false} SampleTextIsFirst(blocks: seq<string>, k: nat)
    requires k < |blocks| && HasSampleText(blocks[k])
    requires forall j :: 0 <= j < k ==> !HasSampleText(blocks[j])
    ensures SampleText(blocks) == Some(Strip(Join(Split(blocks[k], '\n')[2..], '\n')))
    decreases k
  {
    if k > 0 {
      var rest := blocks[1..];
      assert !HasSampleText(blocks[0]);
      assert forall j :: 0 <= j < k - 1 ==> rest[j] == blocks[j + 1];
      assert rest[k - 1] == blocks[k];
      SampleTextIsFirst(rest, k - 1);
    }
  }

  /** The source language `translate_srt` detects in `content`. */
  function SourceLanguage(engine: Engine, content: string): Option<string> {
    match SampleText(SplitBlocks(Strip(content)))
    case None => None
    case Some(text) => DetectLanguage(engine, text)
  }

  /** The translations of `chunks`, one service call each, in order; `None`
      as soon as a call raises. */
  function TranslateChunks(engine: Engine, chunks: seq<string>, target: string): (r: Option<seq<string>>)
    ensures r.Some? <==> forall i :: 0 <= i < |chunks| ==> engine.translate(chunks[i], target).Success?
    ensures r.Some? ==> (|r.value| == |chunks|
      && forall i :: 0 <= i < |chunks| ==> r.value[i] == engine.translate(chunks[i], target).value)
    decreases |chunks|
  {
    if chunks == [] then Some([])
    else
      var init := chunks[..|chunks| - 1];
      assert forall i :: 0 <= i < |init| ==> init[i] == chunks[i];
      match TranslateChunks(engine, init, target)
      case None => None
      case Some(done) =>
        match engine.translate(chunks[|chunks| - 1], target)
        case Failure(_) => None
        case Success(x) => Some(done + [x])
  }

  /** One more chunk: its translation is appended, or the whole is `None`. */
  lemma TranslateChunksStep(engine: Engine, chunks: seq<string>, j: nat, target: string)
    requires j < |chunks|
    ensures TranslateChunks(engine, chunks[..j + 1], target) ==
      if TranslateChunks(engine, chunks[..j], target).Some? && engine.translate(chunks[j], target).Success?
      then Some(TranslateChunks(engine, chunks[..j], target).value + [engine.translate(chunks[j], target).value])
      else None
  {
    assert chunks[..j + 1][..j] == chunks[..j];
  }

  /** The lines that replace a block's text lines: the translation, split back
      into lines, or the original lines when they are blank or a chunk fails. */
  function TranslatedTextLines(t: SubtitleTranslator, textLines: seq<string>, target: string): (r: seq<string>)
    ensures |textLines| >= 1 ==> |r| >= 1
    ensures var text := Join(textLines, '\n');
      var translated := TranslateChunks(t.engine, Chunks(text, t.maxChunkLength), target);
      Strip(text) != "" && translated.Some? ==> Join(r, '\n') == Join(translated.value, '\n')
  {
    var text := Join(textLines, '\n');
    if Strip(text) == "" then textLines
    else
      match TranslateChunks(t.engine, Chunks(text, t.maxChunkLength), target)
      case None => textLines
      case Some(translated) =>
        JoinSplit(Join(translated, '\n'), '\n');
        Split(Join(translated, '\n'), '\n')
  }

  /** What one block contributes to `translated_blocks`: nothing for a block
      of fewer than three lines; otherwise its index and timing lines, its
      text lines as `TranslatedTextLines` gives them, and an empty line. */
  function RewriteBlock(t: SubtitleTranslator, block: string, target: string): seq<string> {
    var lines := Split(block, '\n');
    if |lines| < 3 then []
    else [lines[0], lines[1]] + TranslatedTextLines(t, lines[2..], target) + [""]
  }

  /** The index and timing lines survive the rewrite and the block is closed
      by an empty line; a block whose text is blank or whose translation fails
      keeps all its lines, and otherwise its new text lines, joined, are the
      chunks' translations joined. */
  lemma RewriteBlockShape(t: SubtitleTranslator, block: string, target: string)
    ensures var lines := Split(block, '\n'); var r := RewriteBlock(t, block, target);
      && (|lines| < 3 ==> r == [])
      && (|lines| >= 3 ==> |r| >= 4 && r[0] == lines[0] && r[1] == lines[1] && r[|r| - 1] == "")
      && (|lines| >= 3 && (Strip(Join(lines[2..], '\n')) == ""
            || TranslateChunks(t.engine, Chunks(Join(lines[2..], '\n'), t.maxChunkLength), target).None?)
          ==> r == lines + [""])
      && (|lines| >= 3 && Strip(Join(lines[2..], '\n')) != ""
            && TranslateChunks(t.engine, Chunks(Join(lines[2..], '\n'), t.maxChunkLength), target).Some?
          ==> Join(r[2..|r| - 1], '\n')
              == Join(TranslateChunks(t.engine, Chunks(Join(lines[2..], '\n'), t.maxChunkLength), target).value, '\n'))
  {
    var lines := Split(block, '\n');
    if |lines| >= 3 {
      assert lines == [lines[0], lines[1]] + lines[2..];
      var r := RewriteBlock(t, block, target);
      assert r[2..|r| - 1] == TranslatedTextLines(t, lines[2..], target);
    }
  }

  /** `translated_blocks` after the loop has seen `blocks`. */
  function RewriteBlocks(t: SubtitleTranslator, blocks: seq<string>, target: string): seq<string>
    decreases |blocks|
  {
    if blocks == [] then []
    else RewriteBlocks(t, blocks[..|blocks| - 1], target) + RewriteBlock(t, blocks[|blocks| - 1], target)
  }

  /** Blocks are rewritten one at a time and in order. */
  lemma {:induction false} RewriteBlocksAppend(t: SubtitleTranslator, a: seq<string>, b: seq<string>, target: string)
    ensures RewriteBlocks(t, a + b, target) == RewriteBlocks(t, a, target) + RewriteBlocks(t, b, target)
    decreases |b|
  {
    if b == [] {
      assert a + b == a;
    } else {
      var init := b[..|b| - 1];
      var x := RewriteBlock(t, b[|b| - 1], target);
      assert RewriteBlocks(t, a + b, target) == RewriteBlocks(t, a + init, target) + x by {
        assert (a + b)[..|a + b| - 1] == a + init;
        assert (a + b)[|a + b| - 1] == b[|b| - 1];
      }
      assert RewriteBlocks(t, b, target) == RewriteBlocks(t, init, target) + x;
      RewriteBlocksAppend(t, a, init, target);
      AppendAssoc(RewriteBlocks(t, a, target), RewriteBlocks(t, init, target), x);
    }
  }

  /** The final `'\n'.join(...).strip() + '\n'`: the text neither starts nor
      ends with whitespace before its one closing newline. */
  function FinishDocument(lines: seq<string>): (r: string)
    ensures |r| >= 1 && r[|r| - 1] == '\n'
    ensures |r| >= 2 ==> !IsSpace(r[0]) && !IsSpace(r[|r| - 2])
    ensures r[..|r| - 1] == Strip(Join(lines, '\n'))
  {
    Strip(Join(lines, '\n')) + "\n"
  }

  /** The outcome of `translate_srt(content, targetLang)`: an error for a
      target the service rejects; the content itself when the detected source
      language is the target; otherwise every block rewritten. */
  function TranslateSrtOutcome(t: SubtitleTranslator, content: string, targetLang: string): Result<(string, Option<string>)> {
    var target := NormalizeLanguageCode(targetLang);
    if !ValidateLanguageCode(t.engine, target) then
      Failure("Unsupported target language: " + target)
    else
      var source := SourceLanguage(t.engine, content);
      if source.Some? && source.value == target then Success((content, source))
      else Success((FinishDocument(RewriteBlocks(t, SplitBlocks(Strip(content)), target)), source))
  }

  /** The source-language loop of `translate_srt`: detection runs on the
      first block with text, and only on that one. */
  method DetectSourceLanguage(engine: Engine, blocks: seq<string>) returns (source: Option<string>)
    ensures source == match SampleText(blocks) case None => None case Some(text) => DetectLanguage(engine, text)
  {
    source := None;
    var i := 0;
    while i < |blocks|
      invariant 0 <= i <= |blocks|
      invariant SampleText(blocks) == SampleText(blocks[i..])
    {
      SampleTextStep(blocks, i);
      var lines := Split(blocks[i], '\n');
      if |lines| >= 3 {
        var text := Strip(Join(lines[2..], '\n'));
        if text != "" {
          source := DetectLanguage(engine, text);
          return;
        }
      }
      i := i + 1;
    }
  }

  /** The chunk loop of `translate_srt`: one service call per chunk, in
      order, stopping at the first that raises. */
  method TranslateEach(engine: Engine, chunks: seq<string>, target: string)
    returns (r: Option<seq<string>>)
    ensures r == TranslateChunks(engine, chunks, target)
  {
    var translatedChunks: seq<string> := [];
    var j := 0;
    while j < |chunks|
      invariant 0 <= j <= |chunks|
      invariant TranslateChunks(engine, chunks[..j], target) == Some(translatedChunks)
    {
      TranslateChunksStep(engine, chunks, j, target);
      match engine.translate(chunks[j], target) {
        case Failure(_) =>
          assert TranslateChunks(engine, chunks, target).None? by {
            assert !engine.translate(chunks[j], target).Success?;
          }
          return None;
        case Success(translated) =>
          translatedChunks := translatedChunks + [translated];
          j := j + 1;
      }
    }
    assert chunks[..j] == chunks;
    r := Some(translatedChunks);
  }

  /** A block's non-blank text: chunked, translated, and split back into
      lines; the original lines when any chunk raises. */
  method TranslateTextLines(t: SubtitleTranslator, textLines: seq<string>, target: string)
    returns (out: seq<string>)
    requires Strip(Join(textLines, '\n')) != ""
    ensures out == TranslatedTextLines(t, textLines, target)
  {
    var chunks := ChunkText(Join(textLines, '\n'), t.maxChunkLength);
    var translated := TranslateEach(t.engine, chunks, target);
    match translated {
      case None =>
        out := textLines;
      case Some(translatedChunks) =>
        out := Split(Join(translatedChunks, '\n'), '\n');
    }
  }

  /** One turn of the block loop of `translate_srt`. */
  method TranslateBlock(t: SubtitleTranslator, block: string, target: string) returns (out: seq<string>)
    ensures out == RewriteBlock(t, block, target)
  {
    var lines := Split(block, '\n');
    if |lines| < 3 {
      return [];
    }
    var textLines := lines[2..];
    var newLines := textLines;
    if Strip(Join(textLines, '\n')) != "" {
      newLines := TranslateTextLines(t, textLines, target);
    }
    out := [lines[0], lines[1]] + newLines + [""];
  }

  /** The block loop of `translate_srt`. */
  method RewriteAll(t: SubtitleTranslator, blocks: seq<string>, target: string) returns (translatedBlocks: seq<string>)
    ensures translatedBlocks == RewriteBlocks(t, blocks, target)
  {
    translatedBlocks := [];
    for k := 0 to |blocks|
      invariant translatedBlocks == RewriteBlocks(t, blocks[..k], target)
    {
      assert blocks[..k + 1][..k] == blocks[..k];
      var out := TranslateBlock(t, blocks[k], target);
      translatedBlocks := translatedBlocks + out;
    }
    assert blocks[..|blocks|] == blocks;
  }

  /** An unsupported target is the only error; a success reports the detected
      source language, and hands the content back untouched when that
      language is the target. */
  lemma TranslateSrtOutcomeCases(t: SubtitleTranslator, content: string, targetLang: string)
    ensures var r := TranslateSrtOutcome(t, content, targetLang);
      && (r.Failure? <==> !ValidateLanguageCode(t.engine, NormalizeLanguageCode(targetLang)))
      && (r.Failure? ==> r.error == "Unsupported target language: " + NormalizeLanguageCode(targetLang))
      && (r.Success? ==> r.value.1 == SourceLanguage(t.engine, content))
      && (r.Success? && r.value.1 == Some(NormalizeLanguageCode(targetLang)) ==> r.value.0 == content)
      && (r.Success? && r.value.1 != Some(NormalizeLanguageCode(targetLang)) ==>
            |r.value.0| >= 1 && r.value.0[|r.value.0| - 1] == '\n')
  {
  }

  /** `translate_srt` */
  method TranslateSrt(t: SubtitleTranslator, content: string, targetLang: string)
    returns (r: Result<(string, Option<string>)>)
    ensures r == TranslateSrtOutcome(t, content, targetLang)
  {
    var target := NormalizeLanguageCode(targetLang);
    if !ValidateLanguageCode(t.engine, target) {
      return Failure("Unsupported target language: " + target);
    }
    var blocks := SplitBlocks(Strip(content));
    var source := DetectSourceLanguage(t.engine, blocks);
    assert source == SourceLanguage(t.engine, content);
    if source.Some? && source.value == target {
      return Success((content, source));
    }
    var translatedBlocks := RewriteAll(t, blocks, target);
    r := Success((FinishDocument(translatedBlocks), source));
  }

  // ---------------------------------------------------------------------------
  // Properties of the rewrite

  /** The lines of every block the rewrite keeps, each followed by an empty
      line: what the rewrite produces when the text comes back unchanged. */
  function KeptLines(blocks: seq<string>): seq<string>
    decreases |blocks|
  {
    if blocks == [] then []
    else
      var lines := Split(blocks[|blocks| - 1], '\n');
      KeptLines(blocks[..|blocks| - 1]) + (if |lines| < 3 then [] else lines + [""])
  }

  /** With a service that hands back its input, every kept block comes out
      line for line as it went in: chunking and rejoining lose nothing. */
  lemma IdentityEngineKeepsBlock(t: SubtitleTranslator, block: string, target: string)
    requires forall x :: t.engine.translate(x, target) == Success(x)
    ensures var lines := Split(block, '\n');
      RewriteBlock(t, block, target) == if |lines| < 3 then [] else lines + [""]
  {
    var lines := Split(block, '\n');
    if |lines| >= 3 {
      IdentityEngineKeepsText(t, lines[2..], target);
      assert lines == [lines[0], lines[1]] + lines[2..];
    }
  }

  /** With a service that hands back its input, text lines come back as they
      were. */
  lemma IdentityEngineKeepsText(t: SubtitleTranslator, textLines: seq<string>, target: string)
    requires forall x :: t.engine.translate(x, target) == Success(x)
    requires |textLines| >= 1 && NoNewlines(textLines)
    ensures TranslatedTextLines(t, textLines, target) == textLines
  {
    var text := Join(textLines, '\n');
    if Strip(text) != "" {
      var chunks := Chunks(text, t.maxChunkLength);
      IdentityEngineKeepsChunks(t.engine, chunks, target);
      ChunksRejoin(text, t.maxChunkLength);
      SplitJoin(textLines, '\n');
    }
  }

  lemma IdentityEngineKeepsChunks(engine: Engine, chunks: seq<string>, target: string)
    requires forall x :: engine.translate(x, target) == Success(x)
    ensures TranslateChunks(engine, chunks, target) == Some(chunks)
  {
    var r := TranslateChunks(engine, chunks, target);
    assert r.Some?;
    assert forall i :: 0 <= i < |chunks| ==> r.value[i] == chunks[i];
    assert r.value == chunks;
  }

  lemma {:induction false} IdentityEngineKeepsBlocks(t: SubtitleTranslator, blocks: seq<string>, target: string)
    requires forall x :: t.engine.translate(x, target) == Success(x)
    ensures RewriteBlocks(t, blocks, target) == KeptLines(blocks)
    decreases |blocks|
  {
    if blocks != [] {
      IdentityEngineKeepsBlocks(t, blocks[..|blocks| - 1], target);
      IdentityEngineKeepsBlock(t, blocks[|blocks| - 1], target);
    }
  }
}
