/** `remove_repeated_lines(summary_text)`: every line normalised (whitespace
    runs collapsed, trimmed), empty lines dropped, only the first occurrence
    of each normalised line kept, the survivors re-joined with '\n'. */
module Dedup {
  import opened Strings

  /** `' '.join(line.split())` for every line, in order. */
  function Normalized(lines: seq<string>): (ns: seq<string>)
    ensures |ns| == |lines|
    ensures forall i :: 0 <= i < |lines| ==> ns[i] == Normalize(lines[i])
  {
    if lines == [] then [] else Normalized(lines[..|lines| - 1]) + [Normalize(lines[|lines| - 1])]
  }

  /** The non-empty items of `xs`, each kept at its first occurrence only.
      Defined from the back, as the source's loop builds it from the front:
      the last item is appended when it is non-empty and not yet kept. */
  function FirstOccurrences(xs: seq<string>): (r: seq<string>)
    ensures forall i, j :: 0 <= i < j < |r| ==> r[i] != r[j]
    ensures forall x :: x in r <==> x != "" && x in xs
  {
    if xs == [] then []
    else
      var keep := FirstOccurrences(xs[..|xs| - 1]);
      var x := xs[|xs| - 1];
      assert xs == xs[..|xs| - 1] + [x];
      if x != "" && x !in keep then keep + [x] else keep
  }

  /** The lines `remove_repeated_lines` keeps. */
  function DedupLines(text: string): seq<string> {
    FirstOccurrences(Normalized(SplitOn(text, '\n')))
  }

  /** What `remove_repeated_lines(text)` returns. */
  function Deduplicated(text: string): string {
    Join("\n", DedupLines(text))
  }

  /** The source's loop: `new_lines` grows by each normalised line that is
      non-empty and not in the `seen` set, which records what was kept. */
  method RemoveRepeatedLines(summaryText: string) returns (result: string)
    ensures result == Deduplicated(summaryText)
  {
    var lines := SplitOn(summaryText, '\n');
    var newLines: seq<string> := [];
    var seen: set<string> := {};
    for i := 0 to |lines|
      invariant newLines == FirstOccurrences(Normalized(lines[..i]))
      invariant forall x :: x in seen <==> x in newLines
    {
      var normalizedLine := Normalize(lines[i]);
      assert lines[..i + 1][..i] == lines[..i];
      if normalizedLine != "" && normalizedLine !in seen {
        newLines := newLines + [normalizedLine];
        seen := seen + {normalizedLine};
      }
    }
    assert lines[..|lines|] == lines;
    result := Join("\n", newLines);
  }

  // ---------------------------------------------------------------------
  // Properties of the kept lines

  /** Every kept line is non-empty, single-spaced (no leading or trailing
      whitespace, no run of spaces) and holds no '\n'. */
  lemma DedupLinesShape(text: string)
    ensures forall i :: 0 <= i < |DedupLines(text)| ==>
      var l := DedupLines(text)[i];
      l != "" && SingleSpaced(l) && '\n' !in l && Normalize(l) == l
  {
    var lines := SplitOn(text, '\n');
    var ns := Normalized(lines);
    var ds := DedupLines(text);
    forall i | 0 <= i < |ds|
      ensures ds[i] != "" && SingleSpaced(ds[i]) && '\n' !in ds[i] && Normalize(ds[i]) == ds[i]
    {
      assert ds[i] in ns;
      var k :| 0 <= k < |ns| && ns[k] == ds[i];
      NormalizedLineShape(lines[k]);
    }
  }

  lemma NormalizedLineShape(line: string)
    ensures var l := Normalize(line);
      l != "" ==> SingleSpaced(l) && '\n' !in l && Normalize(l) == l
  {
    NormalizeShape(line);
    NormalizeIdempotent(line);
  }

  /** The kept lines are pairwise distinct and are exactly the non-empty
      normalised input lines. */
  lemma DedupLinesContents(text: string)
    ensures forall i, j :: 0 <= i < j < |DedupLines(text)| ==> DedupLines(text)[i] != DedupLines(text)[j]
    ensures forall x :: x in DedupLines(text) <==>
      x != "" && exists line :: line in SplitOn(text, '\n') && Normalize(line) == x
  {
    var lines := SplitOn(text, '\n');
    var ns := Normalized(lines);
    forall x ensures x in ns <==> exists line :: line in lines && Normalize(line) == x {
      if x in ns {
        var k :| 0 <= k < |ns| && ns[k] == x;
        assert lines[k] in lines;
      }
      if exists line :: line in lines && Normalize(line) == x {
        var line :| line in lines && Normalize(line) == x;
        var k :| 0 <= k < |lines| && lines[k] == line;
        assert ns[k] == x;
      }
    }
  }

  /** The position of the first occurrence of `x` in `s`. */
  function FirstIndex(s: seq<string>, x: string): (k: nat)
    requires x in s
    ensures k < |s| && s[k] == x && x !in s[..k]
  {
    if s[0] == x then 0 else 1 + FirstIndex(s[1..], x)
  }

  lemma {:induction false} FirstIndexAppend(s: seq<string>, x: string, y: string)
    requires y in s
    ensures FirstIndex(s + [x], y) == FirstIndex(s, y)
  {
    if s[0] != y {
      assert (s + [x])[1..] == s[1..] + [x];
      FirstIndexAppend(s[1..], x, y);
    }
  }

  /** Kept items appear in the order of their first occurrences. */
  lemma {:induction false} FirstOccurrencesOrder(xs: seq<string>)
    ensures forall i, j :: 0 <= i < j < |FirstOccurrences(xs)| ==>
      FirstIndex(xs, FirstOccurrences(xs)[i]) < FirstIndex(xs, FirstOccurrences(xs)[j])
  {
    if xs != [] {
      var init := xs[..|xs| - 1];
      var x := xs[|xs| - 1];
      var keep := FirstOccurrences(init);
      var r := FirstOccurrences(xs);
      assert xs == init + [x];
      FirstOccurrencesOrder(init);
      forall y | y in keep ensures FirstIndex(xs, y) == FirstIndex(init, y) {
        FirstIndexAppend(init, x, y);
      }
      if x != "" && x !in keep {
        assert x !in init;
        assert FirstIndex(xs, x) == |init|;
        forall i, j | 0 <= i < j < |r| ensures FirstIndex(xs, r[i]) < FirstIndex(xs, r[j]) {
          assert r[i] == keep[i];
          if j < |keep| {
            assert r[j] == keep[j];
          }
        }
      }
    }
  }

  /** The kept lines follow the order of first occurrence among the
      normalised input lines. */
  lemma DedupLinesOrder(text: string)
    ensures var ns := Normalized(SplitOn(text, '\n'));
      forall i, j :: 0 <= i < j < |DedupLines(text)| ==>
        FirstIndex(ns, DedupLines(text)[i]) < FirstIndex(ns, DedupLines(text)[j])
  {
    FirstOccurrencesOrder(Normalized(SplitOn(text, '\n')));
  }

  /** A sequence of distinct non-empty items is its own first occurrences. */
  lemma {:induction false} FirstOccurrencesOfDistinct(xs: seq<string>)
    requires forall i :: 0 <= i < |xs| ==> xs[i] != ""
    requires forall i, j :: 0 <= i < j < |xs| ==> xs[i] != xs[j]
    ensures FirstOccurrences(xs) == xs
  {
    if xs != [] {
      var init := xs[..|xs| - 1];
      FirstOccurrencesOfDistinct(init);
      assert xs[|xs| - 1] !in init;
      assert xs == init + [xs[|xs| - 1]];
    }
  }

  /** Normalising already-normalised lines changes nothing. */
  lemma NormalizedFixed(lines: seq<string>)
    requires forall i :: 0 <= i < |lines| ==> Normalize(lines[i]) == lines[i]
    ensures Normalized(lines) == lines
  {
  }

  /** The lines of the returned string are exactly the kept lines: joining
      them with '\n' creates no extra line and merges none. */
  lemma DeduplicatedLines(text: string)
    ensures DedupLines(text) == [] ==> Deduplicated(text) == ""
    ensures DedupLines(text) != [] ==> SplitOn(Deduplicated(text), '\n') == DedupLines(text)
  {
    var ds := DedupLines(text);
    if ds != [] {
      DedupLinesShape(text);
      SplitOnJoin(ds, '\n');
    }
  }

  /** `remove_repeated_lines` is idempotent. */
  lemma DeduplicatedIdempotent(text: string)
    ensures Deduplicated(Deduplicated(text)) == Deduplicated(text)
  {
    var ds := DedupLines(text);
    DedupLinesShape(text);
    DedupLinesContents(text);
    if ds == [] {
      assert Deduplicated(text) == "";
      assert SplitOn("", '\n') == [""];
      assert Normalize("") == "";
      assert Normalized([""]) == [""];
    } else {
      SplitOnJoin(ds, '\n');
      NormalizedFixed(ds);
      FirstOccurrencesOfDistinct(ds);
    }
  }

  lemma NormalizedAppend(a: seq<string>, b: seq<string>)
    ensures Normalized(a + b) == Normalized(a) + Normalized(b)
  {
  }

  /** Empty items never influence which items are kept. */
  lemma {:induction false} FirstOccurrencesNonEmpty(xs: seq<string>)
    ensures FirstOccurrences(NonEmpty(xs)) == FirstOccurrences(xs)
  {
    if xs != [] {
      var init := xs[..|xs| - 1];
      var x := xs[|xs| - 1];
      FirstOccurrencesNonEmpty(init);
      if x != "" {
        var ne := NonEmpty(init) + [x];
        assert ne[..|ne| - 1] == NonEmpty(init);
      }
    }
  }

  /** The non-empty normalised lines: all that `remove_repeated_lines` looks at. */
  function Content(lines: seq<string>): seq<string> {
    NonEmpty(Normalized(lines))
  }

  lemma ContentAppend(a: seq<string>, b: seq<string>)
    ensures Content(a + b) == Content(a) + Content(b)
  {
    NormalizedAppend(a, b);
    NonEmptyAppend(Normalized(a), Normalized(b));
  }

  /** Texts with the same non-empty normalised lines deduplicate alike:
      blank lines, and how much whitespace a line carries, make no difference. */
  lemma SameContentSameLines(s: string, t: string)
    requires Content(SplitOn(s, '\n')) == Content(SplitOn(t, '\n'))
    ensures DedupLines(s) == DedupLines(t)
  {
    FirstOccurrencesNonEmpty(Normalized(SplitOn(s, '\n')));
    FirstOccurrencesNonEmpty(Normalized(SplitOn(t, '\n')));
  }

  lemma ExampleLineNormal(line: string, ws: seq<string>)
    requires forall i :: 0 <= i < |ws| ==> VisibleAscii(ws[i])
    requires line == Join(" ", ws)
    ensures Normalize(line) == line
  {
    forall i | 0 <= i < |ws| ensures IsWord(ws[i]) {
      VisibleAsciiIsWord(ws[i]);
    }
    WordsOfJoin(ws);
  }

  lemma ExampleKeptSingle(c: string)
    requires c != ""
    ensures FirstOccurrences([c]) == [c]
  {
    assert [c][..0] == [];
  }

  lemma ExampleKeptOne(c: string)
    requires c != ""
    ensures FirstOccurrences([c, c]) == [c]
  {
    ExampleKeptSingle(c);
    assert [c, c][..1] == [c];
  }

  lemma ExampleKept(c: string, d: string)
    requires c != d && c != "" && d != ""
    ensures FirstOccurrences([c, c, d]) == [c, d]
  {
    ExampleKeptOne(c);
    assert [c, c, d][..2] == [c, c];
  }

  lemma ExampleSplit(text: string, cats: string, dogs: string)
    requires '\n' !in cats && '\n' !in dogs
    requires text == cats + "\n" + cats + "\n" + dogs
    ensures SplitOn(text, '\n') == [cats, cats, dogs]
  {
    var lines := [cats, cats, dogs];
    assert lines[1..] == [cats, dogs] && [cats, dogs][1..] == [dogs];
    assert Join("\n", [cats, dogs]) == cats + "\n" + dogs;
    assert Join("\n", lines) == text;
    SplitOnJoin(lines, '\n');
  }

  lemma DedupExampleFrom(text: string, cats: string, dogs: string)
    requires cats != dogs && cats != "" && dogs != ""
    requires Normalize(cats) == cats && Normalize(dogs) == dogs
    requires '\n' !in cats && '\n' !in dogs
    requires text == cats + "\n" + cats + "\n" + dogs
    ensures Deduplicated(text) == cats + "\n" + dogs
  {
    ExampleSplit(text, cats, dogs);
    NormalizedFixed([cats, cats, dogs]);
    ExampleKept(cats, dogs);
    assert [cats, dogs][1..] == [dogs];
    assert Join("\n", [cats, dogs]) == cats + "\n" + dogs;
  }

  lemma ExampleLineAB()
    ensures Normalize("a b") == "a b"
  {
    assert VisibleAscii("a") && VisibleAscii("b");
    ExampleLineNormal("a b", ["a", "b"]);
  }

  lemma ExampleLineC()
    ensures Normalize("c") == "c"
  {
    assert VisibleAscii("c");
    ExampleLineNormal("c", ["c"]);
  }

  lemma ExampleDedupText()
    ensures '\n' !in "a b" && '\n' !in "c"
    ensures "a b" != "c"
    ensures "a b\na b\nc"
         == "a b" + "\n" + "a b" + "\n" + "c"
    ensures "a b\nc" == "a b" + "\n" + "c"
  {
  }

  /** The worked example: a repeated line is dropped. */
  lemma DedupExample()
    ensures Deduplicated("a b\na b\nc")
         == "a b\nc"
  {
    ExampleLineAB();
    ExampleLineC();
    ExampleDedupText();
    DedupExampleFrom("a b\na b\nc", "a b", "c");
  }
}
