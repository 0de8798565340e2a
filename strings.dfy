/** The parts of Python's `str` behaviour that the summariser's text
    processing relies on: whitespace classification, `split()` with no
    argument (words), `split(c)` with a separator, `sep.join(parts)` and
    `strip()`.  Two different splitting functions are deliberately kept
    apart: `Words` drops every whitespace run and never yields an empty
    piece, while `SplitOn` keeps empty pieces and always yields at least one. */
module Strings {

  /** Python's `str.isspace()` on one character; `str.split()` and
      `str.strip()` use the same table.  Note that it includes '\n'. */
  predicate IsSpace(c: char) {
    c == ' ' || ('\t' <= c <= '\r') || ('\U{1C}' <= c <= '\U{1F}')
    || c == '\U{85}' || c == '\U{A0}' || c == '\U{1680}'
    || ('\U{2000}' <= c <= '\U{200A}') || c == '\U{2028}' || c == '\U{2029}'
    || c == '\U{202F}' || c == '\U{205F}' || c == '\U{3000}'
  }

  /** A word as `str.split()` yields it: non-empty, without whitespace. */
  predicate IsWord(w: string) {
    |w| > 0 && forall i :: 0 <= i < |w| ==> !IsSpace(w[i])
  }

  predicate AllWords(ws: seq<string>) {
    forall i :: 0 <= i < |ws| ==> IsWord(ws[i])
  }

  predicate AllSpace(s: string) {
    forall i :: 0 <= i < |s| ==> IsSpace(s[i])
  }

  /** The longest prefix of `s` that holds no whitespace. */
  function LeadingWord(s: string): (w: string)
    ensures |w| <= |s| && w == s[..|w|]
    ensures forall i :: 0 <= i < |w| ==> !IsSpace(w[i])
    ensures |w| < |s| ==> IsSpace(s[|w|])
  {
    if s == [] || IsSpace(s[0]) then [] else [s[0]] + LeadingWord(s[1..])
  }

  /** `s.split()`: the maximal runs of non-whitespace characters, in order. */
  function Words(s: string): (ws: seq<string>)
    ensures AllWords(ws)
    decreases |s|
  {
    if s == [] then []
    else if IsSpace(s[0]) then Words(s[1..])
    else
      var w := LeadingWord(s);
      [w] + Words(s[|w|..])
  }

  /** `sep.join(parts)`. */
  function Join(sep: string, parts: seq<string>): string {
    if |parts| == 0 then ""
    else if |parts| == 1 then parts[0]
    else parts[0] + sep + Join(sep, parts[1..])
  }

  /** `s.split(sep)` for a one-character separator: the pieces between
      separators, empty pieces included. */
  function SplitOn(s: string, sep: char): (parts: seq<string>)
    ensures |parts| >= 1
    ensures forall i :: 0 <= i < |parts| ==> sep !in parts[i]
    decreases |s|
  {
    if s == [] then [""]
    else
      var rest := SplitOn(s[1..], sep);
      if s[0] == sep then [""] + rest else [[s[0]] + rest[0]] + rest[1..]
  }

  /** `s.lstrip()`: a suffix of `s` that does not start with whitespace. */
  function TrimStart(s: string): (r: string)
    ensures |r| <= |s| && r == s[|s| - |r|..]
    ensures r != [] ==> !IsSpace(r[0])
    decreases |s|
  {
    if s != [] && IsSpace(s[0]) then TrimStart(s[1..]) else s
  }

  /** What `lstrip()` drops is whitespace, so it drops the longest
      whitespace prefix. */
  lemma {:induction false} TrimStartDropsSpace(s: string)
    ensures forall i :: 0 <= i < |s| - |TrimStart(s)| ==> IsSpace(s[i])
    decreases |s|
  {
    if s != [] && IsSpace(s[0]) {
      TrimStartDropsSpace(s[1..]);
      assert forall i :: 0 < i < |s| ==> s[i] == s[1..][i - 1];
    }
  }

  /** `s.rstrip()`: a prefix of `s` that does not end with whitespace. */
  function TrimEnd(s: string): (r: string)
    ensures |r| <= |s| && r == s[..|r|]
    ensures r != [] ==> !IsSpace(r[|r| - 1])
    decreases |s|
  {
    if s != [] && IsSpace(s[|s| - 1]) then TrimEnd(s[..|s| - 1]) else s
  }

  /** What `rstrip()` drops is whitespace. */
  lemma {:induction false} TrimEndDropsSpace(s: string)
    ensures forall i :: |TrimEnd(s)| <= i < |s| ==> IsSpace(s[i])
    decreases |s|
  {
    if s != [] && IsSpace(s[|s| - 1]) {
      TrimEndDropsSpace(s[..|s| - 1]);
    }
  }

  /** `s.strip()`. */
  function Strip(s: string): string {
    TrimEnd(TrimStart(s))
  }

  /** `' '.join(s.split())`: whitespace runs collapsed to one space, trimmed. */
  function Normalize(s: string): string {
    Join(" ", Words(s))
  }

  /** Non-empty, with no whitespace at either end. */
  predicate Stripped(t: string) {
    t != "" && !IsSpace(t[0]) && !IsSpace(t[|t| - 1])
  }

  /** Every whitespace character is a plain space, strictly inside the
      string, and followed by a non-whitespace character: no leading or
      trailing whitespace, no run of two spaces, no tab and no newline. */
  predicate SingleSpaced(s: string) {
    forall i :: 0 <= i < |s| && IsSpace(s[i]) ==>
      s[i] == ' ' && 0 < i < |s| - 1 && !IsSpace(s[i + 1])
  }

  /** A non-empty run of visible ASCII characters ('!' to '~'). */
  predicate VisibleAscii(w: string) {
    |w| > 0 && forall i :: 0 <= i < |w| ==> '!' <= w[i] <= '~'
  }

  lemma VisibleAsciiIsWord(w: string)
    requires VisibleAscii(w)
    ensures IsWord(w)
  {
  }

  // ---------------------------------------------------------------------
  // Words

  lemma {:induction false} LeadingWordOf(w: string, t: string)
    requires forall i :: 0 <= i < |w| ==> !IsSpace(w[i])
    requires t == [] || IsSpace(t[0])
    ensures LeadingWord(w + t) == w
  {
    if w != [] {
      assert (w + t)[0] == w[0];
      assert (w + t)[1..] == w[1..] + t;
      LeadingWordOf(w[1..], t);
    } else {
      assert w + t == t;
    }
  }

  /** A word followed by whitespace or by nothing is the first word. */
  lemma WordsOfWordThen(w: string, t: string)
    requires IsWord(w)
    requires t == [] || IsSpace(t[0])
    ensures Words(w + t) == [w] + Words(t)
  {
    var s := w + t;
    assert s[0] == w[0];
    LeadingWordOf(w, t);
    assert s[|w|..] == t;
  }

  /** Text after the first word that starts with whitespace, or nothing,
      does not change where the first word ends. */
  lemma {:induction false} LeadingWordConcat(a: string, t: string)
    requires t == [] || IsSpace(t[0])
    ensures LeadingWord(a + t) == LeadingWord(a)
  {
    if a == [] {
      assert a + t == t;
    } else {
      assert (a + t)[0] == a[0];
      assert (a + t)[1..] == a[1..] + t;
      LeadingWordConcat(a[1..], t);
    }
  }

  /** `split()` cuts at every whitespace character: the words on either side
      of one are the words of the text. With `Words("") == []` and
      `WordsOfWordThen(w, "")` this determines `Words` on every string. */
  lemma {:induction false} WordsConcat(a: string, c: char, b: string)
    requires IsSpace(c)
    ensures Words(a + [c] + b) == Words(a) + Words(b)
    decreases |a|
  {
    var s := a + [c] + b;
    if a == [] {
      assert s[0] == c && s[1..] == b;
    } else if IsSpace(a[0]) {
      assert s[0] == a[0];
      assert s[1..] == a[1..] + [c] + b;
      WordsConcat(a[1..], c, b);
    } else {
      assert s[0] == a[0];
      assert s == a + ([c] + b);
      LeadingWordConcat(a, [c] + b);
      var w := LeadingWord(a);
      assert s[|w|..] == a[|w|..] + [c] + b;
      WordsConcat(a[|w|..], c, b);
    }
  }

  /** `s.split()` is empty exactly when `s` is all whitespace. */
  lemma {:induction false} WordsEmpty(s: string)
    ensures Words(s) == [] <==> AllSpace(s)
    decreases |s|
  {
    if s != [] {
      WordsEmpty(s[1..]);
      if IsSpace(s[0]) {
        assert AllSpace(s) <==> AllSpace(s[1..]) by {
          if AllSpace(s[1..]) {
            forall i | 0 <= i < |s| ensures IsSpace(s[i]) {
              if i > 0 { assert s[i] == s[1..][i - 1]; }
            }
          }
          if AllSpace(s) {
            forall i | 0 <= i < |s| - 1 ensures IsSpace(s[1..][i]) {
              assert s[1..][i] == s[i + 1];
            }
          }
        }
      }
    }
  }

  /** Joining words with single spaces and splitting again gives the words
      back: the round trip behind both the chunker and the normaliser. */
  lemma {:induction false} WordsOfJoin(ws: seq<string>)
    requires AllWords(ws)
    ensures Words(Join(" ", ws)) == ws
  {
    if |ws| == 1 {
      WordsOfWordThen(ws[0], "");
      assert ws[0] + "" == ws[0];
    } else if |ws| > 1 {
      var rest := Join(" ", ws[1..]);
      assert Join(" ", ws) == ws[0] + (" " + rest);
      WordsOfWordThen(ws[0], " " + rest);
      assert (" " + rest)[1..] == rest;
      WordsOfJoin(ws[1..]);
      assert ws == [ws[0]] + ws[1..];
    }
  }

  /** Words joined with single spaces form a single-spaced string, which is
      empty only when there were no words. */
  lemma {:induction false} JoinWordsSingleSpaced(ws: seq<string>)
    requires AllWords(ws)
    ensures SingleSpaced(Join(" ", ws))
    ensures Join(" ", ws) == "" <==> ws == []
  {
    if |ws| == 1 {
      assert IsWord(ws[0]);
    } else if |ws| > 1 {
      var w := ws[0];
      var rest := Join(" ", ws[1..]);
      JoinWordsSingleSpaced(ws[1..]);
      var s := Join(" ", ws);
      assert s == w + " " + rest;
      assert IsWord(w);
      assert !IsSpace(rest[0]);
      assert forall i :: 0 <= i < |w| ==> s[i] == w[i];
      forall i | 0 <= i < |s| && IsSpace(s[i])
        ensures s[i] == ' ' && 0 < i < |s| - 1 && !IsSpace(s[i + 1])
      {
        if i == |w| {
          assert s[i + 1] == rest[0];
        } else if i > |w| {
          assert s[i] == rest[i - |w| - 1];
          if i + 1 < |s| {
            assert s[i + 1] == rest[i - |w|];
          }
        }
      }
    }
  }

  // ---------------------------------------------------------------------
  // Normalisation

  /** What `' '.join(line.split())` yields: a single-spaced string, empty
      exactly for an all-whitespace line, and therefore free of newlines. */
  lemma NormalizeShape(s: string)
    ensures SingleSpaced(Normalize(s))
    ensures Normalize(s) == "" <==> AllSpace(s)
    ensures '\n' !in Normalize(s)
  {
    JoinWordsSingleSpaced(Words(s));
    WordsEmpty(s);
    assert IsSpace('\n');
  }

  /** Normalising is idempotent. */
  lemma NormalizeIdempotent(s: string)
    ensures Normalize(Normalize(s)) == Normalize(s)
  {
    WordsOfJoin(Words(s));
  }

  // ---------------------------------------------------------------------
  // Strip

  /** `strip()` leaves a string alone when it has no whitespace at either end. */
  lemma StripNoOp(s: string)
    requires s == "" || Stripped(s)
    ensures Strip(s) == s
  {
    var t := TrimStart(s);
    if |t| < |s| {
      assert IsSpace(s[0]);
    }
  }

  /** `strip()` of a single-spaced string is the string itself. */
  lemma StripSingleSpaced(s: string)
    requires SingleSpaced(s)
    ensures Strip(s) == s
  {
    if s != [] {
      assert !IsSpace(s[0]);
      assert !IsSpace(s[|s| - 1]);
    }
    StripNoOp(s);
  }

  /** `strip()` yields a stripped string, or "" exactly for an
      all-whitespace argument. */
  lemma StripEnds(s: string)
    ensures Strip(s) == [] <==> AllSpace(s)
    ensures Strip(s) != [] ==> Stripped(Strip(s))
  {
    var t := TrimStart(s);
    var r := TrimEnd(t);
    TrimStartDropsSpace(s);
    TrimEndDropsSpace(t);
    if r != [] {
      assert r[0] == t[0];
    }
    if t != [] {
      assert !IsSpace(t[0]);
      assert t[0] == s[|s| - |t|];
    }
  }

  /** `strip()` only removes characters. */
  lemma StripChars(s: string)
    ensures forall c :: c in Strip(s) ==> c in s
  {
    var t := TrimStart(s);
    var r := TrimEnd(t);
    forall c | c in r ensures c in s {
      var i :| 0 <= i < |r| && r[i] == c;
      assert r[i] == t[i] == s[|s| - |t| + i];
    }
  }

  // ---------------------------------------------------------------------
  // split(sep) and join

  lemma {:induction false} SplitOnNoSep(s: string, sep: char)
    requires sep !in s
    ensures SplitOn(s, sep) == [s]
    decreases |s|
  {
    if s != [] {
      assert sep != s[0];
      SplitOnNoSep(s[1..], sep);
      assert [s[0]] + s[1..] == s;
    }
  }

  /** A separator between two strings splits them apart: the pieces of
      `a + [sep] + b` are those of `a` followed by those of `b`. */
  lemma {:induction false} SplitOnConcat(a: string, sep: char, b: string)
    ensures SplitOn(a + [sep] + b, sep) == SplitOn(a, sep) + SplitOn(b, sep)
    decreases |a|
  {
    var s := a + [sep] + b;
    if a == [] {
      assert s[1..] == b;
    } else {
      assert s[0] == a[0];
      assert s[1..] == a[1..] + [sep] + b;
      SplitOnConcat(a[1..], sep, b);
    }
  }

  /** Splitting a join gives the parts back, provided none holds the
      separator (a join of no parts is "", whose split is [""]). */
  lemma {:induction false} SplitOnJoin(parts: seq<string>, sep: char)
    requires |parts| >= 1
    requires forall i :: 0 <= i < |parts| ==> sep !in parts[i]
    ensures SplitOn(Join([sep], parts), sep) == parts
  {
    if |parts| == 1 {
      SplitOnNoSep(parts[0], sep);
    } else {
      SplitOnJoin(parts[1..], sep);
      assert Join([sep], parts) == parts[0] + [sep] + Join([sep], parts[1..]);
      SplitOnConcat(parts[0], sep, Join([sep], parts[1..]));
      SplitOnNoSep(parts[0], sep);
      assert parts == [parts[0]] + parts[1..];
    }
  }

  /** Joining the pieces of a split gives the original string back. */
  lemma {:induction false} JoinSplitOn(s: string, sep: char)
    ensures Join([sep], SplitOn(s, sep)) == s
    decreases |s|
  {
    if s != [] {
      var rest := SplitOn(s[1..], sep);
      JoinSplitOn(s[1..], sep);
      if s[0] == sep {
        assert Join([sep], [""] + rest) == "" + [sep] + Join([sep], rest);
      } else {
        JoinPrepend(s[0], [sep], rest);
      }
      assert [s[0]] + s[1..] == s;
    }
  }

  /** A character put in front of the first part comes out in front. */
  lemma JoinPrepend(c: char, sep: string, parts: seq<string>)
    requires parts != []
    ensures Join(sep, [[c] + parts[0]] + parts[1..]) == [c] + Join(sep, parts)
  {
    var ps := [[c] + parts[0]] + parts[1..];
    assert ps[1..] == parts[1..];
    if |parts| > 1 {
      assert Join(sep, ps) == [c] + parts[0] + sep + Join(sep, parts[1..]);
    }
  }

  // ---------------------------------------------------------------------
  // Filtering out empty strings

  /** The non-empty items of `xs`, in order. */
  function NonEmpty(xs: seq<string>): (r: seq<string>)
    ensures forall i :: 0 <= i < |r| ==> r[i] != ""
  {
    if xs == [] then []
    else
      var x := xs[|xs| - 1];
      assert xs == xs[..|xs| - 1] + [x];
      if x == "" then NonEmpty(xs[..|xs| - 1]) else NonEmpty(xs[..|xs| - 1]) + [x]
  }

  /** An item is kept exactly when it is non-empty and occurs in `xs`. */
  lemma {:induction false} NonEmptyMembers(xs: seq<string>)
    ensures forall x :: x in NonEmpty(xs) <==> x in xs && x != ""
  {
    if xs != [] {
      var init := xs[..|xs| - 1];
      assert xs == init + [xs[|xs| - 1]];
      NonEmptyMembers(init);
    }
  }

  /** One item is kept exactly when it is non-empty. */
  lemma NonEmptySingle(x: string)
    ensures NonEmpty([x]) == if x == "" then [] else [x]
  {
    assert [x][..0] == [];
  }

  /** A list without empty items is kept whole. */
  lemma {:induction false} NonEmptyKeepsAll(xs: seq<string>)
    requires forall i :: 0 <= i < |xs| ==> xs[i] != ""
    ensures NonEmpty(xs) == xs
  {
    if xs != [] {
      var init := xs[..|xs| - 1];
      assert xs == init + [xs[|xs| - 1]];
      NonEmptyKeepsAll(init);
    }
  }

  lemma {:induction false} NonEmptyAppend(a: seq<string>, b: seq<string>)
    ensures NonEmpty(a + b) == NonEmpty(a) + NonEmpty(b)
    decreases |b|
  {
    if b == [] {
      assert a + b == a;
    } else {
      var init := b[..|b| - 1];
      assert (a + b)[..|a + b| - 1] == a + init;
      assert (a + b)[|a + b| - 1] == b[|b| - 1];
      NonEmptyAppend(a, init);
    }
  }
}
