/** `chunk_text(text, chunk_size)`: the words of `text`, in consecutive
    groups of `chunk_size`, each group re-joined with single spaces. */
module Chunker {
  import opened Strings

  /** What iterating `chunk_text` delivers: the chunks, or the ValueError
      that `range(0, n, 0)` raises when the chunk size is zero. */
  datatype ChunkResult = Chunks(chunks: seq<string>) | StepZero

  function Min(a: int, b: int): int {
    if a <= b then a else b
  }

  /** The concatenation of a sequence of sequences. */
  function Flatten<T>(ss: seq<seq<T>>): seq<T> {
    if ss == [] then [] else ss[0] + Flatten(ss[1..])
  }

  /** The slices `ws[i:i+k]` for `i` in `range(0, len(ws), k)`, as a
      recursion on the word sequence; there are none exactly when there is
      nothing to slice. */
  function Groups<T>(ws: seq<T>, k: nat): (gs: seq<seq<T>>)
    requires k > 0
    ensures gs == [] <==> ws == []
    decreases |ws|
  {
    if ws == [] then []
    else
      var n := Min(k, |ws|);
      [ws[..n]] + Groups(ws[n..], k)
  }

  /** The groups partition `ws` in order. */
  lemma {:induction false} GroupsPartition<T>(ws: seq<T>, k: nat)
    requires k > 0
    ensures Flatten(Groups(ws, k)) == ws
    decreases |ws|
  {
    if ws != [] {
      var n := Min(k, |ws|);
      GroupsPartition(ws[n..], k);
      assert ws == ws[..n] + ws[n..];
    }
  }

  /** Every group holds between 1 and `k` items, all but the last exactly `k`. */
  lemma {:induction false} GroupsSizes<T>(ws: seq<T>, k: nat)
    requires k > 0
    ensures forall i :: 0 <= i < |Groups(ws, k)| ==> 1 <= |Groups(ws, k)[i]| <= k
    ensures forall i :: 0 <= i < |Groups(ws, k)| - 1 ==> |Groups(ws, k)[i]| == k
    decreases |ws|
  {
    if ws != [] {
      var n := Min(k, |ws|);
      var rest := Groups(ws[n..], k);
      GroupsSizes(ws[n..], k);
      var gs := Groups(ws, k);
      assert gs == [ws[..n]] + rest;
      assert rest != [] ==> n == k;
      assert |gs[0]| == n;
      forall i | 0 < i < |gs| ensures gs[i] == rest[i - 1] {
      }
    }
  }

  /** There are ceil(|ws| / k) groups. */
  lemma {:induction false} GroupsCount<T>(ws: seq<T>, k: nat)
    requires k > 0
    ensures |Groups(ws, k)| == (|ws| + k - 1) / k
    decreases |ws|
  {
    if ws != [] {
      var n := Min(k, |ws|);
      GroupsCount(ws[n..], k);
      DivStep(|ws| - n, k);
    }
  }

  lemma DivStep(a: int, k: int)
    requires k > 0 && a >= 0
    ensures (a + k + k - 1) / k == (a + k - 1) / k + 1
  {
    var n := a + k - 1;
    DivUnique(n + k, k, n / k + 1, n % k);
  }

  /** Euclidean division is determined by quotient and remainder. */
  lemma DivUnique(n: int, k: int, q: int, r: int)
    requires k > 0 && 0 <= r < k && n == q * k + r
    ensures n / k == q
  {
    var q', r' := n / k, n % k;
    assert n == q' * k + r';
    assert (q - q') * k == r' - r;
    if q - q' >= 1 {
      MulAtLeast(q - q', k);
    } else if q' - q >= 1 {
      MulAtLeast(q' - q, k);
    }
  }

  lemma MulAtLeast(m: int, k: int)
    requires m >= 1 && k > 0
    ensures m * k >= k
  {
  }

  /** The `i`-th group is the slice `ws[i*k : i*k+k]` that Python takes at
      the `i`-th step of `range(0, len(ws), k)`. */
  lemma {:induction false} GroupsAt<T>(ws: seq<T>, k: nat, i: nat)
    requires k > 0 && i < |Groups(ws, k)|
    ensures i * k < |ws|
    ensures Groups(ws, k)[i] == ws[i * k .. Min(i * k + k, |ws|)]
    decreases i
  {
    if i > 0 {
      GroupsStep(ws, k, i);
      var r := ws[k..];
      var j := (i - 1) * k;
      var e := Min(j + k, |r|);
      ShiftedBounds(i, k, |ws|);
      GroupsAt(r, k, i - 1);
      SliceOfSlice(ws, k, j, e);
    } else {
      GroupsFirst(ws, k);
    }
  }

  lemma GroupsFirst<T>(ws: seq<T>, k: nat)
    requires k > 0 && 0 < |Groups(ws, k)|
    ensures 0 * k < |ws| && Groups(ws, k)[0] == ws[0 * k .. Min(0 * k + k, |ws|)]
  {
  }

  /** Past the first group, the groups are those of the rest. */
  lemma GroupsStep<T>(ws: seq<T>, k: nat, i: nat)
    requires k > 0 && 0 < i < |Groups(ws, k)|
    ensures k < |ws| && Groups(ws, k)[i] == Groups(ws[k..], k)[i - 1]
    ensures i - 1 < |Groups(ws[k..], k)|
  {
    var n := Min(k, |ws|);
    assert Groups(ws, k) == [ws[..n]] + Groups(ws[n..], k);
  }

  lemma SliceOfSlice<T>(s: seq<T>, a: nat, b: nat, c: nat)
    requires a <= |s| && b <= c <= |s| - a
    ensures s[a..][b..c] == s[a + b .. a + c]
  {
    assert |s[a..][b..c]| == c - b;
    forall x | 0 <= x < c - b ensures s[a..][b..c][x] == s[a + b .. a + c][x] {
      assert s[a..][b..c][x] == s[a + b + x];
    }
  }

  /** The slice bounds of step `i - 1` on the rest, shifted by `k`. */
  lemma ShiftedBounds(i: int, k: int, len: int)
    requires i > 0 && k > 0
    ensures (i - 1) * k >= 0
    ensures k + (i - 1) * k == i * k
    ensures k + Min((i - 1) * k + k, len - k) == Min(i * k + k, len)
  {
  }

  /** The chunk strings for a positive chunk size. */
  function ChunkStrings(text: string, chunkSize: nat): seq<string>
    requires chunkSize > 0
  {
    JoinEach(Groups(Words(text), chunkSize))
  }

  /** `" ".join(g)` for each group `g`, in order. */
  function JoinEach(gs: seq<seq<string>>): (cs: seq<string>)
    ensures |cs| == |gs|
    ensures forall i :: 0 <= i < |gs| ==> cs[i] == Join(" ", gs[i])
  {
    if gs == [] then [] else [Join(" ", gs[0])] + JoinEach(gs[1..])
  }

  /** `chunk_text(text, chunk_size)` for any integer chunk size: a zero step
      is a ValueError, a negative step gives an empty range. */
  function ChunkText(text: string, chunkSize: int := 100): ChunkResult {
    if chunkSize == 0 then StepZero
    else if chunkSize < 0 then Chunks([])
    else Chunks(ChunkStrings(text, chunkSize))
  }

  /** The word list of each chunk, as `chunk.split()` would give it. */
  function ChunkWords(chunks: seq<string>): seq<seq<string>> {
    seq(|chunks|, i requires 0 <= i < |chunks| => Words(chunks[i]))
  }

  /** Splitting each chunk back into words gives exactly the groups. */
  lemma ChunkWordsAreGroups(text: string, chunkSize: nat)
    requires chunkSize > 0
    ensures ChunkWords(ChunkStrings(text, chunkSize)) == Groups(Words(text), chunkSize)
  {
    var gs := Groups(Words(text), chunkSize);
    var cs := ChunkStrings(text, chunkSize);
    forall i | 0 <= i < |gs| ensures Words(cs[i]) == gs[i] {
      assert AllWords(gs[i]) by {
        GroupWords(Words(text), chunkSize, i);
      }
      WordsOfJoin(gs[i]);
    }
  }

  /** Every group of a word list is itself a list of words. */
  lemma GroupWords(ws: seq<string>, k: nat, i: nat)
    requires k > 0 && AllWords(ws) && i < |Groups(ws, k)|
    ensures AllWords(Groups(ws, k)[i])
  {
    GroupsAt(ws, k, i);
    var a, b := i * k, Min(i * k + k, |ws|);
    SliceWords(ws, a, b);
  }

  lemma SliceWords(ws: seq<string>, a: nat, b: nat)
    requires a <= b <= |ws| && AllWords(ws)
    ensures AllWords(ws[a..b])
  {
    forall j | 0 <= j < b - a ensures IsWord(ws[a..b][j]) {
      assert ws[a..b][j] == ws[a + j];
    }
  }

  /** No word is dropped, duplicated or reordered: the words of the chunks,
      concatenated in order, are exactly `text.split()`. */
  lemma ChunkPartition(text: string, chunkSize: nat)
    requires chunkSize > 0
    ensures Flatten(ChunkWords(ChunkStrings(text, chunkSize))) == Words(text)
  {
    ChunkWordsAreGroups(text, chunkSize);
    GroupsPartition(Words(text), chunkSize);
  }

  /** Every chunk but the last holds exactly `chunkSize` words, the last
      between 1 and `chunkSize`, and there are ceil(words / chunkSize)
      chunks; all-whitespace text gives none. */
  lemma ChunkSizes(text: string, chunkSize: nat)
    requires chunkSize > 0
    ensures |ChunkStrings(text, chunkSize)| == (|Words(text)| + chunkSize - 1) / chunkSize
    ensures forall i :: 0 <= i < |ChunkStrings(text, chunkSize)| ==>
      1 <= |Words(ChunkStrings(text, chunkSize)[i])| <= chunkSize
    ensures forall i :: 0 <= i < |ChunkStrings(text, chunkSize)| - 1 ==>
      |Words(ChunkStrings(text, chunkSize)[i])| == chunkSize
    ensures ChunkStrings(text, chunkSize) == [] <==> AllSpace(text)
  {
    var cs := ChunkStrings(text, chunkSize);
    var gs := Groups(Words(text), chunkSize);
    ChunkWordsAreGroups(text, chunkSize);
    GroupsCount(Words(text), chunkSize);
    GroupsSizes(Words(text), chunkSize);
    WordsEmpty(text);
    forall i | 0 <= i < |cs| ensures Words(cs[i]) == gs[i] {
      assert ChunkWords(cs)[i] == Words(cs[i]);
    }
  }

  lemma ExampleWords()
    ensures Words("alpha beta gamma") == ["alpha", "beta", "gamma"]
  {
    var ws := ["alpha", "beta", "gamma"];
    assert VisibleAscii("alpha") && VisibleAscii("beta") && VisibleAscii("gamma");
    VisibleAsciiIsWord("alpha");
    VisibleAsciiIsWord("beta");
    VisibleAsciiIsWord("gamma");
    assert AllWords(ws);
    WordsOfJoin(ws);
    assert Join(" ", ws) == "alpha beta gamma";
  }

  lemma ExampleGroups()
    ensures Groups(["alpha", "beta", "gamma"], 2) == [["alpha", "beta"], ["gamma"]]
  {
    var ws := ["alpha", "beta", "gamma"];
    assert ws[..2] == ["alpha", "beta"] && ws[2..] == ["gamma"];
    assert Groups(["gamma"], 2) == [["gamma"]] by {
      assert ["gamma"][..1] == ["gamma"] && ["gamma"][1..] == [];
    }
  }

  lemma ChunkExampleFrom(text: string)
    requires Words(text) == ["alpha", "beta", "gamma"]
    ensures ChunkText(text, 2) == Chunks(["alpha beta", "gamma"])
  {
    ExampleGroups();
    assert Join(" ", ["alpha", "beta"]) == "alpha beta";
    assert JoinEach([["gamma"]]) == ["gamma"];
  }

  /** The worked example: three words in chunks of two words. */
  lemma ChunkExample()
    ensures ChunkText("alpha beta gamma", 2) == Chunks(["alpha beta", "gamma"])
  {
    ExampleWords();
    ChunkExampleFrom("alpha beta gamma");
  }
}
