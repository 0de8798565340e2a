/** `summarizetext(text, max_length, min_length)` and how its output flows
    through `remove_repeated_lines` and `format_summary`.  The neural model
    is a parameter: a function from a chunk and the two length bounds to
    the summary text it produces (the source calls it without sampling). */
module Pipeline {
  import opened Strings
  import opened Chunker
  import opened Dedup
  import opened Formatter

  /** The chunk size `summarizetext` hands to `chunk_text`. */
  const SummaryChunkSize: nat := 100

  /** The default length bounds of `summarizetext`, which `main` uses. */
  const DefaultMaxLength: int := 100
  const DefaultMinLength: int := 50

  /** The separator between chunk summaries: a blank line. */
  const FragmentSeparator: string := "\n\n"

  /** The model applied to each chunk, in chunk order. */
  function Fragments(chunks: seq<string>, model: (string, int, int) -> string,
                     maxLength: int, minLength: int): (fs: seq<string>)
    ensures |fs| == |chunks|
    ensures forall i :: 0 <= i < |chunks| ==> fs[i] == model(chunks[i], maxLength, minLength)
  {
    if chunks == [] then []
    else Fragments(chunks[..|chunks| - 1], model, maxLength, minLength)
         + [model(chunks[|chunks| - 1], maxLength, minLength)]
  }

  /** The source's loop: one summary appended per chunk, then all of them
      joined with a blank line between neighbours. */
  method SummarizeText(text: string, model: (string, int, int) -> string,
                       maxLength: int := DefaultMaxLength,
                       minLength: int := DefaultMinLength) returns (summary: string)
    ensures summary == Join(FragmentSeparator,
      Fragments(ChunkStrings(text, SummaryChunkSize), model, maxLength, minLength))
  {
    var chunks := ChunkStrings(text, SummaryChunkSize);
    var summaries: seq<string> := [];
    for i := 0 to |chunks|
      invariant summaries == Fragments(chunks[..i], model, maxLength, minLength)
    {
      assert chunks[..i + 1][..i] == chunks[..i];
      summaries := summaries + [model(chunks[i], maxLength, minLength)];
    }
    assert chunks[..|chunks|] == chunks;
    summary := Join(FragmentSeparator, summaries);
  }

  /** Text without words gives no chunks, so no model call and an empty
      raw summary, which cleans and formats to the empty string. */
  lemma BlankTextSummary(text: string, model: (string, int, int) -> string,
                         maxLength: int, minLength: int)
    requires AllSpace(text)
    ensures ChunkStrings(text, SummaryChunkSize) == []
    ensures var summary := Join(FragmentSeparator,
      Fragments(ChunkStrings(text, SummaryChunkSize), model, maxLength, minLength));
      summary == "" && FormatSummary(Deduplicated(summary)) == ""
  {
    ChunkSizes(text, SummaryChunkSize);
    assert SplitOn("", '\n') == [""];
    assert Normalize("") == "";
    assert Normalized([""]) == [""];
    assert Deduplicated("") == "";
    FormatEmpty();
  }

  /** Formatting the empty string gives the empty string. */
  lemma FormatEmpty()
    ensures FormatSummary("") == ""
  {
    assert SplitOn("", '\n') == [""];
    StripNoOp("");
    assert Bullets([""]) == [];
  }

  /** `strip()` changes no line that `remove_repeated_lines` keeps. */
  lemma DedupLinesStripped(text: string)
    ensures forall i :: 0 <= i < |DedupLines(text)| ==>
      DedupLines(text)[i] != "" && Strip(DedupLines(text)[i]) == DedupLines(text)[i]
  {
    DedupLinesShape(text);
    var ds := DedupLines(text);
    forall i | 0 <= i < |ds| ensures Strip(ds[i]) == ds[i] {
      StripSingleSpaced(ds[i]);
    }
  }

  /** On the output of `remove_repeated_lines`, `strip()` changes nothing
      and no line is blank, so `format_summary` only prefixes "- " to each
      kept line. */
  lemma FormatDeduplicated(text: string)
    ensures FormatSummary(Deduplicated(text)) == Join("\n", Prefixed(DedupLines(text)))
  {
    var ds := DedupLines(text);
    if ds == [] {
      FormatEmpty();
    } else {
      DedupLinesShape(text);
      SplitOnJoin(ds, '\n');
      DedupLinesStripped(text);
      BulletsOfStripped(ds);
    }
  }

  lemma ContentOfEmptyLine()
    ensures Content([""]) == []
  {
    assert Normalize("") == "";
    assert Normalized([""]) == [""];
  }

  /** One blank line between two texts does not change their content. */
  lemma BlankLineBetween(f: string, r1: string, r2: string, t1: string, t2: string)
    requires Content(SplitOn(r2, '\n')) == Content(SplitOn(r1, '\n'))
    requires t2 == f + ['\n'] + (['\n'] + r2) && t1 == f + ['\n'] + r1
    ensures Content(SplitOn(t2, '\n')) == Content(SplitOn(t1, '\n'))
  {
    var lf, l2, l1 := SplitOn(f, '\n'), SplitOn(r2, '\n'), SplitOn(r1, '\n');
    var m := SplitOn(['\n'] + r2, '\n');
    assert (['\n'] + r2)[1..] == r2;
    assert m == [""] + l2;
    ContentAppend([""], l2);
    ContentOfEmptyLine();
    assert Content(m) == Content(l2);
    SplitOnConcat(f, '\n', ['\n'] + r2);
    ContentAppend(lf, m);
    SplitOnConcat(f, '\n', r1);
    ContentAppend(lf, l1);
  }

  lemma JoinUnfold(sep: string, fs: seq<string>)
    requires |fs| >= 2
    ensures Join(sep, fs) == fs[0] + sep + Join(sep, fs[1..])
  {
  }

  /** How the "\n\n" join of two or more summaries begins. */
  lemma JoinBlankUnfold(fs: seq<string>)
    requires |fs| >= 2
    ensures Join(FragmentSeparator, fs) == fs[0] + ['\n'] + (['\n'] + Join(FragmentSeparator, fs[1..]))
  {
    JoinUnfold(FragmentSeparator, fs);
  }

  /** The blank lines that "\n\n" puts between chunk summaries are dropped
      by `remove_repeated_lines`: joining with one newline instead keeps the
      same lines. */
  lemma {:induction false} SeparatorLinesDropped(fs: seq<string>)
    ensures Content(SplitOn(Join(FragmentSeparator, fs), '\n'))
         == Content(SplitOn(Join("\n", fs), '\n'))
  {
    if |fs| >= 2 {
      var r2 := Join(FragmentSeparator, fs[1..]);
      var r1 := Join("\n", fs[1..]);
      SeparatorLinesDropped(fs[1..]);
      JoinBlankUnfold(fs);
      JoinUnfold("\n", fs);
      BlankLineBetween(fs[0], r1, r2, Join("\n", fs), Join(FragmentSeparator, fs));
    }
  }

  /** Hence the cleaned summary of the chunk summaries is that of the same
      summaries joined by single newlines. */
  lemma DeduplicatedSummaries(fs: seq<string>)
    ensures DedupLines(Join(FragmentSeparator, fs)) == DedupLines(Join("\n", fs))
  {
    SeparatorLinesDropped(fs);
    SameContentSameLines(Join(FragmentSeparator, fs), Join("\n", fs));
  }

  /** The chain in `main`: the raw summary of the chunk summaries, cleaned
      and formatted, is one "- " bullet per kept line of the chunk summaries
      joined by single newlines, so no bullet comes from a separator. */
  lemma {:induction false} MainSummary(text: string, model: (string, int, int) -> string)
    ensures var fs := Fragments(ChunkStrings(text, SummaryChunkSize), model,
                                DefaultMaxLength, DefaultMinLength);
      FormatSummary(Deduplicated(Join(FragmentSeparator, fs)))
        == Join("\n", Prefixed(DedupLines(Join("\n", fs))))
  {
    var fs := Fragments(ChunkStrings(text, SummaryChunkSize), model,
                        DefaultMaxLength, DefaultMinLength);
    DeduplicatedSummaries(fs);
    FormatDeduplicated(Join(FragmentSeparator, fs));
  }
}
