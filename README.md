# PDF summariser text pipeline, modelled in Dafny

`pdf_summarizer.py` extracts the text of a PDF. It cuts the text into chunks of
100 words and has a neural summariser condense each chunk. It joins the chunk
summaries with blank lines, removes repeated lines, and prints the rest as
bullet points. This project models the deterministic string processing around
the summariser and proves its properties:

- `chunk_text`: split on whitespace, then consecutive groups of `chunk_size`
  words re-joined with single spaces;
- `remove_repeated_lines`: split on `'\n'`, normalise the whitespace of each
  line, drop empty lines, keep the first occurrence of each line, re-join with
  `'\n'`;
- `format_summary`: split on `'\n'`, drop blank lines, `"- " + line.strip()`,
  re-join with `'\n'`;
- the loop of `summarizetext`: one model call per chunk in chunk order, the
  results joined with `"\n\n"`.

Files, one module each:

- `strings.dfy` (module `Strings`): the parts of Python's `str` the code uses.
  - `IsSpace` is `str.isspace()`, which `split()` and `strip()` share; it
    includes `'\n'`.
  - `Words` is `split()` with no argument. It yields no empty pieces.
  - `SplitOn` is `split(c)`. It keeps empty pieces and yields at least one.
  - `Join` is `sep.join`; `TrimStart`, `TrimEnd` and `Strip` are
    `lstrip`/`rstrip`/`strip`.
  - `Normalize` is `' '.join(s.split())`.
- `chunker.dfy` (module `Chunker`): `chunk_text` as a pure function whose
  chunk size defaults to 100, as in the source.
  - A chunk size of 0 makes `range` raise `ValueError`; this is the `StepZero`
    result.
  - A negative chunk size gives an empty range, so no chunks.
- `dedup.dfy` (module `Dedup`): `remove_repeated_lines` as a method with the
  source's loop and `seen` set, and the function `Deduplicated` that specifies
  it.
- `formatter.dfy` (module `Formatter`): `format_summary` as a function.
- `pipeline.dfy` (module `Pipeline`): the `summarizetext` loop as a method. The
  model is a function parameter taking the chunk, `max_length` and
  `min_length`; the two bounds default to 100 and 50, as in the source. It
  also holds the lemmas that connect the stages the way `main` chains them
  (pdf_summarizer.py:88-92), ending in `MainSummary`.

## Model

| member | source | states |
|---|---|---|
| Strings.IsSpace | pdf_summarizer.py:28 | definition: the characters `str.isspace()` accepts, which `split()` and `strip()` cut at; listed under "## Left out" |
| Strings.Words | pdf_summarizer.py:28 | every piece `text.split()` yields is a non-empty run of non-whitespace characters |
| Strings.WordsEmpty | pdf_summarizer.py:28 | `split()` yields nothing exactly when the text is empty or all whitespace |
| Strings.WordsConcat | pdf_summarizer.py:28 | `split()` cuts at every whitespace character, whatever it is and however many follow: the words of `a + [c] + b` for whitespace `c` are the words of `a` then those of `b`; with `WordsOfWordThen(w, "")` and `Words("") == []` this fixes `split()` on every string |
| Strings.WordsOfWordThen | pdf_summarizer.py:28 | a run of non-whitespace characters followed by whitespace or by nothing is the first word, and splitting goes on after it |
| Strings.WordsOfJoin | pdf_summarizer.py:28-30 | splitting `" ".join(ws)` again gives back exactly the words `ws` |
| Strings.Join | pdf_summarizer.py:30 | definition of `sep.join(parts)` (also used at lines 45, 54 and 71); `SplitOnJoin`, `JoinSplitOn` and `WordsOfJoin` state its round trips |
| Strings.SplitOn | pdf_summarizer.py:37 | `split('\n')` yields at least one piece, and no piece contains the separator |
| Strings.SplitOnJoin | pdf_summarizer.py:37-45 | splitting a `'\n'`-join of newline-free lines on `'\n'` gives back exactly those lines |
| Strings.JoinSplitOn | pdf_summarizer.py:37 | re-joining the pieces of `split('\n')` with `'\n'` gives back the text |
| Strings.Normalize | pdf_summarizer.py:41 | definition of `' '.join(line.split())`; `NormalizeShape` and `NormalizeIdempotent` state its properties |
| Strings.NormalizeShape | pdf_summarizer.py:41 | a normalised line is single-spaced (no leading, trailing or doubled whitespace; only `' '`) and holds no `'\n'`; it is empty exactly when the line was all whitespace |
| Strings.NormalizeIdempotent | pdf_summarizer.py:41 | normalising a normalised line changes nothing |
| Strings.TrimStart | pdf_summarizer.py:53 | `lstrip()` yields a suffix of its argument that does not start with whitespace |
| Strings.TrimStartDropsSpace | pdf_summarizer.py:53 | every character `lstrip()` drops is whitespace |
| Strings.TrimEnd | pdf_summarizer.py:53 | `rstrip()` yields a prefix of its argument that does not end with whitespace |
| Strings.TrimEndDropsSpace | pdf_summarizer.py:53 | every character `rstrip()` drops is whitespace |
| Strings.Strip | pdf_summarizer.py:53 | definition of `line.strip()` as `rstrip` after `lstrip`; `TrimStart`, `TrimEnd`, their `DropsSpace` lemmas, `StripEnds` and `StripChars` state its properties |
| Strings.StripEnds | pdf_summarizer.py:53 | `line.strip()` is empty exactly for an all-whitespace line, and otherwise has no whitespace at either end |
| Strings.StripChars | pdf_summarizer.py:53 | `strip()` introduces no character that was not in the line |
| Strings.StripSingleSpaced | pdf_summarizer.py:41-53 | `strip()` leaves a single-spaced line, and so any normalised line, unchanged |
| Strings.NonEmpty | pdf_summarizer.py:42 | the filter `if normalized_line` keeps only non-empty strings |
| Strings.NonEmptyMembers | pdf_summarizer.py:42 | a string is kept exactly when it is non-empty and occurs in the input |
| Strings.NonEmptySingle | pdf_summarizer.py:42 | one string is kept exactly when it is non-empty |
| Strings.NonEmptyAppend | pdf_summarizer.py:42 | filtering two runs of strings gives the kept strings of the first run followed by those of the second, so order is kept |
| Strings.NonEmptyKeepsAll | pdf_summarizer.py:42 | a list without empty strings is kept whole |
| Chunker.ChunkText | pdf_summarizer.py:23-30 | definition of `chunk_text(text, chunk_size=100)`: a zero chunk size is `range`'s `ValueError` (`StepZero`), a negative one gives no chunks, a positive one gives `ChunkStrings`; `ChunkPartition`, `ChunkSizes` and `ChunkExample` state its properties |
| Chunker.ChunkStrings | pdf_summarizer.py:28-30 | definition of the chunks for a positive chunk size: the groups of `text.split()`, each joined with `" "`; `ChunkPartition` and `ChunkSizes` state its properties |
| Chunker.Groups | pdf_summarizer.py:29-30 | the word groups are empty exactly when there are no words |
| Chunker.GroupsPartition | pdf_summarizer.py:29-30 | the groups, concatenated in order, are exactly the word list |
| Chunker.GroupsSizes | pdf_summarizer.py:29-30 | every group has between 1 and `chunk_size` words, and every group but the last has exactly `chunk_size` |
| Chunker.GroupsCount | pdf_summarizer.py:29 | there are ceil(len(words) / chunk_size) groups |
| Chunker.GroupsAt | pdf_summarizer.py:29-30 | the `i`-th group is the slice `words[i*k : i*k+k]` taken at the `i`-th step of `range(0, len(words), k)` |
| Chunker.JoinEach | pdf_summarizer.py:30 | one chunk string per group, in order, each being `" ".join(group)` |
| Chunker.ChunkWordsAreGroups | pdf_summarizer.py:28-30 | splitting each chunk on whitespace gives back its group of words |
| Chunker.ChunkPartition | pdf_summarizer.py:28-30 | the words of the chunks, concatenated in order, are exactly `text.split()`: nothing dropped, duplicated or reordered |
| Chunker.ChunkSizes | pdf_summarizer.py:28-30 | the number of chunks, the words per chunk (exactly `chunk_size` except the last, which has 1 to `chunk_size`), and no chunks exactly for all-whitespace text |
| Chunker.ChunkExample | pdf_summarizer.py:23-30 | `chunk_text("alpha beta gamma", 2)` yields `"alpha beta"` then `"gamma"` |
| Dedup.Normalized | pdf_summarizer.py:40-41 | one normalised line per input line, in order |
| Dedup.FirstOccurrences | pdf_summarizer.py:38-44 | the kept lines are pairwise distinct, and a line is kept exactly when it is non-empty and occurs in the input |
| Dedup.DedupLines | pdf_summarizer.py:37-44 | definition of the list `new_lines` at the end of the loop; `FirstOccurrences`, `DedupLinesContents`, `DedupLinesOrder` and `DedupLinesShape` state its properties |
| Dedup.Deduplicated | pdf_summarizer.py:32-45 | definition of what `remove_repeated_lines` returns; `RemoveRepeatedLines` is proved to return it, and `DeduplicatedLines` and `DeduplicatedIdempotent` state its properties |
| Dedup.RemoveRepeatedLines | pdf_summarizer.py:32-45 | the loop with `new_lines` and `seen` returns `Deduplicated(text)`; its invariants are that `new_lines` holds the first occurrences of the normalised lines read so far and that `seen` holds exactly the lines in `new_lines` |
| Dedup.DedupLinesShape | pdf_summarizer.py:41-43 | every kept line is non-empty, single-spaced, free of `'\n'` and already normalised |
| Dedup.DedupLinesContents | pdf_summarizer.py:39-45 | the kept lines are pairwise distinct and are exactly the non-empty normalisations of input lines |
| Dedup.FirstOccurrencesOrder | pdf_summarizer.py:42-43 | an item kept earlier first occurs earlier in the input |
| Dedup.DedupLinesOrder | pdf_summarizer.py:39-45 | the kept lines are in the order in which the normalised lines first occur |
| Dedup.FirstOccurrencesOfDistinct | pdf_summarizer.py:42-44 | distinct non-empty lines are kept as they are |
| Dedup.DeduplicatedLines | pdf_summarizer.py:45 | the returned string is `""` when no line is kept; otherwise its `'\n'`-pieces are exactly the kept lines |
| Dedup.DeduplicatedIdempotent | pdf_summarizer.py:37-45 | `remove_repeated_lines(remove_repeated_lines(t)) == remove_repeated_lines(t)` |
| Dedup.FirstOccurrencesNonEmpty | pdf_summarizer.py:42 | removing the empty lines first changes nothing, because the filter drops them anyway |
| Dedup.SameContentSameLines | pdf_summarizer.py:37-45 | two texts with the same non-empty normalised lines give the same output, whatever blank lines and extra whitespace they contain |
| Dedup.DedupExample | pdf_summarizer.py:32-45 | `"a b\na b\nc"` becomes `"a b\nc"` |
| Formatter.FormatSummary | pdf_summarizer.py:47-54 | definition of what `format_summary` returns; `FormatSummaryLines`, `BulletsShape` and `BulletsReference` state its properties |
| Formatter.Bullets | pdf_summarizer.py:53 | the comprehension yields at most one bullet per line |
| Formatter.BulletsShape | pdf_summarizer.py:53 | every bullet is `"- "` followed by a non-empty text with no whitespace at either end |
| Formatter.BulletsOfLine | pdf_summarizer.py:53 | a blank line yields no bullet; any other line yields exactly `"- " + line.strip()` |
| Formatter.BulletsAppend | pdf_summarizer.py:53 | the bullets of two runs of lines are the bullets of the first run followed by those of the second, so input order is kept |
| Formatter.BulletsReference | pdf_summarizer.py:52-54 | the bullets are `"- "` in front of each non-empty stripped input line, in input order |
| Formatter.BulletsNoNewline | pdf_summarizer.py:53 | bullets made from pieces of `split('\n')` contain no `'\n'` |
| Formatter.FormatSummaryLines | pdf_summarizer.py:52-54 | with no bullets the result is `""`; otherwise splitting the result on `'\n'` gives exactly the bullets |
| Formatter.BulletsOfStripped | pdf_summarizer.py:53 | on non-empty lines that `strip()` leaves alone, formatting only prefixes each line with `"- "` |
| Formatter.FormatExample | pdf_summarizer.py:47-54 | `"a b\nc"` becomes `"- a b\n- c"` |
| Pipeline.Fragments | pdf_summarizer.py:66-69 | one model result per chunk, the `i`-th being the model applied to the `i`-th chunk with the given length bounds |
| Pipeline.SummarizeText | pdf_summarizer.py:55-71 | the loop returns the model results for the chunks of 100 words, in chunk order, joined with `"\n\n"`; `max_length` and `min_length` default to 100 and 50 |
| Pipeline.BlankTextSummary | pdf_summarizer.py:64-71 | all-whitespace text yields no chunks, hence no model call, and an empty raw summary, which cleans and formats to `""` |
| Pipeline.FormatEmpty | pdf_summarizer.py:52-54 | formatting `""` gives `""` |
| Pipeline.DedupLinesStripped | pdf_summarizer.py:41-53 | `strip()` changes no line that `remove_repeated_lines` keeps, and none of them is blank |
| Pipeline.FormatDeduplicated | pdf_summarizer.py:41-53 | formatting the cleaned summary just prefixes `"- "` to each kept line |
| Pipeline.SeparatorLinesDropped | pdf_summarizer.py:71 | the `"\n\n"`-join and the `"\n"`-join of the chunk summaries have the same non-empty normalised lines: the separator adds only blank lines |
| Pipeline.DeduplicatedSummaries | pdf_summarizer.py:71 | the cleaned summary is the cleaned single-newline join of the chunk summaries, so the blank separator lines never survive |
| Pipeline.MainSummary | pdf_summarizer.py:88-92 | `format_summary(remove_repeated_lines(summarizetext(text)))`, with the default bounds, is one `"- "` bullet per kept line of the chunk summaries joined by single newlines |

## Left out

- `extracttextfrompdf` (pdf_summarizer.py:5-21) is not modelled. It is file input and the PyPDF2 page parser. The model starts from the extracted text.
- Building the `transformers` pipeline and running the model (pdf_summarizer.py:63, 68) are not modelled. The model is a function parameter from a chunk and the two length bounds to `summary[0]['summary_text']`. `do_sample=False` is what makes it a function. `max_length` and `min_length` are only passed through to it.
- `main` (pdf_summarizer.py:73-95) is not modelled: argument parsing, `print`, and the early return for empty text. The chaining of the stages in it (lines 88-92) is stated by `Pipeline.MainSummary`.
- Pipeline.SummarizeText: a model call that raises, which would end `summarizetext` with no result, cannot happen, because the model parameter is a total function. The model also moves from being built inside the function to being a parameter, placed after `text` so that the two length bounds keep their defaults.
- Chunker.ChunkText: `chunk_text` is a generator, and its `ValueError` for a zero chunk size appears only when iteration starts. The model returns the whole chunk list, or `StepZero`, at once. Non-integer chunk sizes are not modelled.
- Strings.IsSpace lists the characters for which Python's `str.isspace()` holds: ASCII `\t` to `\r` and `\x1c` to `\x20`, and U+0085, U+00A0, U+1680, U+2000-U+200A, U+2028, U+2029, U+202F, U+205F, U+3000. It follows Python's Unicode database as of recent CPython versions and does not track changes to it.
- Dafny `char` values are Unicode scalar values, so strings with lone surrogates, which Python allows, are not modelled.
- No integer widths arise: lengths and indices are unbounded, as in Python.
