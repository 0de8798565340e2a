/** `format_summary(summary_text)`: one bullet `"- " + line.strip()` per
    line that is not blank, the bullets re-joined with '\n'. */
module Formatter {
  import opened Strings

  /** A dash, a space, then a stripped text (see `Strings.Stripped`). */
  predicate IsBullet(b: string) {
    |b| > 2 && b[0] == '-' && b[1] == ' ' && Stripped(b[2..])
  }

  lemma BulletOf(t: string)
    requires Stripped(t)
    ensures IsBullet("- " + t) && ("- " + t)[2..] == t
  {
    assert ("- " + t)[2..] == t;
  }

  /** The list comprehension `["- " + line.strip() for line in lines if
      line.strip()]`: at most one bullet per line. */
  function Bullets(lines: seq<string>): (bs: seq<string>)
    ensures |bs| <= |lines|
  {
    if lines == [] then []
    else
      var t := Strip(lines[0]);
      if t == "" then Bullets(lines[1..]) else ["- " + t] + Bullets(lines[1..])
  }

  predicate AllBullets(bs: seq<string>) {
    forall i :: 0 <= i < |bs| ==> IsBullet(bs[i])
  }

  lemma AllBulletsConcat(a: seq<string>, b: seq<string>)
    requires AllBullets(a) && AllBullets(b)
    ensures AllBullets(a + b)
  {
    forall i | 0 <= i < |a + b| ensures IsBullet((a + b)[i]) {
      if i < |a| {
        assert (a + b)[i] == a[i];
      } else {
        assert (a + b)[i] == b[i - |a|];
      }
    }
  }

  /** Every bullet is a dash, a space and a non-empty text with no
      whitespace at either end. */
  lemma {:induction false} BulletsShape(lines: seq<string>)
    ensures AllBullets(Bullets(lines))
  {
    if lines != [] {
      var line := lines[0];
      assert lines == [line] + lines[1..];
      BulletsAppend([line], lines[1..]);
      BulletsShape(lines[1..]);
      BulletsOfLine(line);
      if !AllSpace(line) {
        StripEnds(line);
        BulletOf(Strip(line));
      }
      AllBulletsConcat(Bullets([line]), Bullets(lines[1..]));
    }
  }

  /** What `format_summary(text)` returns. */
  function FormatSummary(text: string): string {
    Join("\n", Bullets(SplitOn(text, '\n')))
  }

  /** The bullets follow the input lines in order: the bullets of two runs
      of lines are those of the first run followed by those of the second. */
  lemma {:induction false} BulletsAppend(a: seq<string>, b: seq<string>)
    ensures Bullets(a + b) == Bullets(a) + Bullets(b)
  {
    if a != [] {
      assert (a + b)[0] == a[0];
      assert (a + b)[1..] == a[1..] + b;
      BulletsAppend(a[1..], b);
    } else {
      assert a + b == b;
    }
  }

  /** A blank line contributes no bullet, any other exactly one. */
  lemma BulletsOfLine(line: string)
    ensures Bullets([line]) == if AllSpace(line) then [] else ["- " + Strip(line)]
  {
    var t := Strip(line);
    assert [line][0] == line && [line][1..] == [];
    assert Bullets([line]) == if t == "" then [] else ["- " + t];
    StripEnds(line);
  }

  /** Bullets of lines without '\n' hold no '\n' either. */
  lemma {:induction false} BulletsNoNewline(lines: seq<string>)
    requires forall i :: 0 <= i < |lines| ==> '\n' !in lines[i]
    ensures forall i :: 0 <= i < |Bullets(lines)| ==> '\n' !in Bullets(lines)[i]
  {
    if lines != [] {
      StripChars(lines[0]);
      BulletsNoNewline(lines[1..]);
      var t := Strip(lines[0]);
      if t != "" {
        assert '\n' !in "- ";
        assert '\n' !in "- " + t;
      }
    }
  }

  /** The lines of `format_summary`'s output are exactly the bullets: joining
      them with '\n' creates no extra line and merges none. */
  lemma FormatSummaryLines(text: string)
    ensures var bs := Bullets(SplitOn(text, '\n'));
      if bs == [] then FormatSummary(text) == ""
      else SplitOn(FormatSummary(text), '\n') == bs
  {
    var bs := Bullets(SplitOn(text, '\n'));
    BulletsNoNewline(SplitOn(text, '\n'));
    if bs != [] {
      SplitOnJoin(bs, '\n');
    }
  }

  /** `"- " + line` for each line. */
  function Prefixed(lines: seq<string>): (bs: seq<string>)
    ensures |bs| == |lines|
    ensures forall i :: 0 <= i < |lines| ==> bs[i] == "- " + lines[i]
  {
    if lines == [] then [] else ["- " + lines[0]] + Prefixed(lines[1..])
  }

  /** On lines that are already stripped and non-empty, formatting only
      prefixes each with "- ". */
  lemma {:induction false} BulletsOfStripped(lines: seq<string>)
    requires forall i :: 0 <= i < |lines| ==> lines[i] != "" && Strip(lines[i]) == lines[i]
    ensures Bullets(lines) == Prefixed(lines)
  {
    if lines != [] {
      var line := lines[0];
      assert lines == [line] + lines[1..];
      BulletsAppend([line], lines[1..]);
      BulletsOfStripped(lines[1..]);
      BulletsOfLine(line);
      StripEnds(line);
    }
  }

  lemma PrefixedAppend(a: seq<string>, b: seq<string>)
    ensures Prefixed(a + b) == Prefixed(a) + Prefixed(b)
  {
  }

  /** `line.strip()` for every line, in order. */
  function StripAll(lines: seq<string>): seq<string> {
    if lines == [] then [] else [Strip(lines[0])] + StripAll(lines[1..])
  }

  /** The bullets are "- " in front of each non-empty stripped line, in
      input order: one bullet per line that is not blank. */
  lemma {:induction false} BulletsReference(lines: seq<string>)
    ensures Bullets(lines) == Prefixed(NonEmpty(StripAll(lines)))
  {
    if lines != [] {
      var t, rest := Strip(lines[0]), StripAll(lines[1..]);
      var head := if t == "" then [] else [t];
      NonEmptySingle(t);
      NonEmptyAppend([t], rest);
      BulletsReference(lines[1..]);
      PrefixedAppend(head, NonEmpty(rest));
    }
  }

  lemma ExampleBulletsFrom(text: string, cats: string, dogs: string)
    requires cats != "" && dogs != "" && Strip(cats) == cats && Strip(dogs) == dogs
    requires '\n' !in cats && '\n' !in dogs
    requires text == cats + "\n" + dogs
    ensures FormatSummary(text) == "- " + cats + "\n" + "- " + dogs
  {
    var lines := [cats, dogs];
    assert Join("\n", lines) == text;
    SplitOnJoin(lines, '\n');
    BulletsOfStripped(lines);
    var bs := Bullets(lines);
    assert bs == ["- " + cats, "- " + dogs];
    assert bs[1..] == ["- " + dogs];
    assert Join("\n", bs) == ("- " + cats) + "\n" + ("- " + dogs);
  }

  lemma ExampleStripped()
    ensures Strip("a b") == "a b"
    ensures Strip("c") == "c"
  {
    StripNoOp("a b");
    StripNoOp("c");
  }

  lemma ExampleFormatText()
    ensures '\n' !in "a b" && '\n' !in "c"
    ensures "a b\nc" == "a b" + "\n" + "c"
    ensures "- a b\n- c" == "- " + "a b" + "\n" + "- " + "c"
  {
  }

  /** The worked example: two lines become two bullets. */
  lemma FormatExample()
    ensures FormatSummary("a b\nc") == "- a b\n- c"
  {
    ExampleStripped();
    ExampleFormatText();
    ExampleBulletsFrom("a b\nc", "a b", "c");
  }
}
