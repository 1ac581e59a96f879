/**
 * `sed_snippets`: the lines containing three backticks are numbered in
 * document order and taken two at a time; of each pair the first line
 * becomes `"{{{" + line[3:]` and the second becomes `"}}}\n"`. A last fence
 * line without a partner is left as it is. The input list is rewritten in
 * place (`lines_out` is the caller's list, not a copy).
 */
module Snippets {
  import opened PyText

  /** The indices below `n` of the lines that contain three backticks,
      in increasing order. */
  function FencesBelow(doc: seq<string>, n: nat): (r: seq<nat>)
    requires n <= |doc|
    ensures forall p :: 0 <= p < |r| ==> r[p] < n && HasFence(doc[r[p]])
  {
    if n == 0 then []
    else FencesBelow(doc, n - 1) + (if HasFence(doc[n - 1]) then [n - 1] else [])
  }

  /** `[li for li, l in enumerate(lines) if "```" in l]`: indices of lines
      of the document that hold a fence. */
  function FenceIndices(doc: seq<string>): (r: seq<nat>)
    ensures forall p :: 0 <= p < |r| ==> r[p] < |doc| && HasFence(doc[r[p]])
  {
    FencesBelow(doc, |doc|)
  }

  /** Python's `range(lo, hi, 2)`. */
  function Range2(lo: int, hi: int): (r: seq<int>)
    ensures |r| == if lo < hi then (hi - lo + 1) / 2 else 0
    ensures forall k :: 0 <= k < |r| ==> r[k] == lo + 2 * k
    decreases hi - lo
  {
    if lo >= hi then [] else [lo] + Range2(lo + 2, hi)
  }

  /** `[(idx[i], idx[i+1]) for i in range(0, len(idx) - 1, 2)]`: there are
      `len(idx) // 2` pairs, the `p`-th made of entries `2p` and `2p + 1`. */
  function Pairs(idx: seq<nat>): (r: seq<(nat, nat)>)
    ensures |r| == |idx| / 2
    ensures forall p :: 0 <= p < |r| ==> r[p] == (idx[2 * p], idx[2 * p + 1])
  {
    var starts := Range2(0, |idx| - 1);
    seq(|starts|, k requires 0 <= k < |starts| => (idx[starts[k]], idx[starts[k] + 1]))
  }

  /** How many fence lines come before index `i`. */
  function Rank(doc: seq<string>, i: nat): nat
    requires i <= |doc|
  {
    |FencesBelow(doc, i)|
  }

  /** The fence rule stated line by line, without the index list: a fence
      line whose rank is odd closes a block, one whose rank is even opens a
      block when a later fence line exists to close it, and every other
      line is kept. */
  function FenceLine(doc: seq<string>, i: nat): (r: string)
    requires i < |doc|
    ensures r == doc[i] || (HasFence(doc[i]) && (r == "}}}\n" || r == "{{{" + SliceFrom(doc[i], 3)))
  {
    var line := doc[i];
    if !HasFence(line) then line
    else if Rank(doc, i) % 2 == 1 then "}}}\n"
    else if Rank(doc, i) + 1 < |FenceIndices(doc)| then "{{{" + SliceFrom(line, 3)
    else line
  }

  /** The document after `sed_snippets`: as many lines as before, and
      every line without a fence kept. */
  function FencesPass(doc: seq<string>): (r: seq<string>)
    ensures |r| == |doc|
    ensures forall i :: 0 <= i < |doc| && !HasFence(doc[i]) ==> r[i] == doc[i]
  {
    seq(|doc|, i requires 0 <= i < |doc| => FenceLine(doc, i))
  }

  /** The fence indices are listed in increasing order. */
  lemma {:induction false} FencesIncreasing(doc: seq<string>, n: nat)
    requires n <= |doc|
    ensures forall p, q :: 0 <= p < q < |FencesBelow(doc, n)| ==> FencesBelow(doc, n)[p] < FencesBelow(doc, n)[q]
  {
    if n > 0 {
      FencesIncreasing(doc, n - 1);
      var front, r := FencesBelow(doc, n - 1), FencesBelow(doc, n);
      forall p, q | 0 <= p < q < |r|
        ensures r[p] < r[q]
      {
        assert r[p] == front[p];
        if q < |front| {
          assert r[q] == front[q];
        }
      }
    }
  }

  /** The fence indices below `m` are a prefix of those below `n`. */
  lemma {:induction false} FencesBelowPrefix(doc: seq<string>, m: nat, n: nat)
    requires m <= n <= |doc|
    ensures FencesBelow(doc, m) <= FencesBelow(doc, n)
    decreases n
  {
    if m < n {
      FencesBelowPrefix(doc, m, n - 1);
    }
  }

  /** Every fence line is listed, at the position given by its rank. */
  lemma FenceAtRank(doc: seq<string>, i: nat)
    requires i < |doc| && HasFence(doc[i])
    ensures Rank(doc, i) < |FenceIndices(doc)|
    ensures FenceIndices(doc)[Rank(doc, i)] == i
  {
    assert FencesBelow(doc, i + 1) == FencesBelow(doc, i) + [i];
    FencesBelowPrefix(doc, i + 1, |doc|);
  }

  /** The `p`-th listed index has rank `p`. */
  lemma RankOfIndex(doc: seq<string>, p: nat)
    requires p < |FenceIndices(doc)|
    ensures Rank(doc, FenceIndices(doc)[p]) == p
  {
    var idx := FenceIndices(doc);
    FenceAtRank(doc, idx[p]);
    FencesIncreasing(doc, |doc|);
    assert forall a, b :: 0 <= a < |idx| && 0 <= b < |idx| && a != b ==> idx[a] != idx[b];
  }

  /** Fence lines are exactly the listed ones. */
  lemma FenceIndicesComplete(doc: seq<string>, i: nat)
    requires i < |doc|
    ensures HasFence(doc[i]) <==> i in FenceIndices(doc)
  {
    if HasFence(doc[i]) {
      FenceAtRank(doc, i);
    }
  }

  /** Each pair's first line is opened with `{{{` followed by the line with
      its first three characters dropped, and its second line becomes
      exactly `}}}\n`. */
  lemma PairRewritten(doc: seq<string>, p: nat)
    requires p < |Pairs(FenceIndices(doc))|
    ensures var (start, end) := Pairs(FenceIndices(doc))[p];
            && start < end < |doc|
            && FencesPass(doc)[start] == "{{{" + SliceFrom(doc[start], 3)
            && FencesPass(doc)[end] == "}}}\n"
  {
    var idx := FenceIndices(doc);
    var start, end := idx[2 * p], idx[2 * p + 1];
    assert Pairs(idx)[p] == (start, end);
    FencesIncreasing(doc, |doc|);
    RankOfIndex(doc, 2 * p);
    RankOfIndex(doc, 2 * p + 1);
    assert FencesPass(doc)[start] == FenceLine(doc, start);
    assert FencesPass(doc)[end] == FenceLine(doc, end);
  }

  /** A line that the pass changes belongs to a pair, so lines outside every
      pair, block bodies included, are kept. */
  lemma ChangedOnlyInPairs(doc: seq<string>, i: nat)
    requires i < |doc| && FencesPass(doc)[i] != doc[i]
    ensures exists p :: 0 <= p < |Pairs(FenceIndices(doc))| &&
              (Pairs(FenceIndices(doc))[p].0 == i || Pairs(FenceIndices(doc))[p].1 == i)
  {
    var idx := FenceIndices(doc);
    assert FencesPass(doc)[i] == FenceLine(doc, i);
    FenceAtRank(doc, i);
    var p := Rank(doc, i) / 2;
    assert Pairs(idx)[p] == (idx[2 * p], idx[2 * p + 1]);
  }

  /** With an odd number of fence lines the last one is not converted. */
  lemma OddFenceKept(doc: seq<string>)
    requires |FenceIndices(doc)| % 2 == 1
    ensures var last := FenceIndices(doc)[|FenceIndices(doc)| - 1];
            FencesPass(doc)[last] == doc[last]
  {
    var idx := FenceIndices(doc);
    var last := idx[|idx| - 1];
    RankOfIndex(doc, |idx| - 1);
    assert FencesPass(doc)[last] == FenceLine(doc, last);
  }

  /** An indented fence keeps part of its backticks: with a two-character
      indentation, as in `  ```py`, the three characters dropped are the
      indentation and one backtick, so the block opens with `{{{``py`. */
  lemma IndentedFence(ind: string, rest: string, body: string)
    requires |ind| == 2 && !HasFence(body)
    ensures FencesPass([ind + "```" + rest, body, "```\n"]) == ["{{{``" + rest, body, "}}}\n"]
  {
    var first, last := ind + "```" + rest, "```\n";
    var doc := [first, body, last];
    HasFenceIff(first);
    assert FenceAt(first, 2);
    HasFenceIff(last);
    assert FenceAt(last, 0);
    assert FencesBelow(doc, 1) == [0];
    assert FencesBelow(doc, 2) == [0];
    assert FenceIndices(doc) == [0, 2];
    assert first[3..] == "``" + rest;
    assert FencesPass(doc)[0] == "{{{``" + rest;
    assert FencesPass(doc)[2] == "}}}\n";
  }

  /** The document once the first `p` pairs have been rewritten. */
  ghost function Done(doc: seq<string>, p: nat, i: nat): string
    requires i < |doc|
  {
    if HasFence(doc[i]) && Rank(doc, i) < 2 * p then FenceLine(doc, i) else doc[i]
  }

  /** Rewriting pair `p` changes exactly its two lines. */
  lemma DoneStep(doc: seq<string>, p: nat, i: nat)
    requires 2 * p + 1 < |FenceIndices(doc)| && i < |doc|
    ensures var idx := FenceIndices(doc);
            Done(doc, p + 1, i) ==
              if i == idx[2 * p] then "{{{" + SliceFrom(doc[i], 3)
              else if i == idx[2 * p + 1] then "}}}\n"
              else Done(doc, p, i)
  {
    var idx := FenceIndices(doc);
    if i == idx[2 * p] {
      RankOfIndex(doc, 2 * p);
      assert (2 * p) % 2 == 0;
      assert Done(doc, p + 1, i) == FenceLine(doc, i);
    } else if i == idx[2 * p + 1] {
      RankOfIndex(doc, 2 * p + 1);
      assert (2 * p + 1) % 2 == 1;
      assert Done(doc, p + 1, i) == FenceLine(doc, i);
    } else if HasFence(doc[i]) {
      FenceAtRank(doc, i);
      var r := Rank(doc, i);
      assert r != 2 * p && r != 2 * p + 1;
      assert r < 2 * (p + 1) <==> r < 2 * p;
    }
  }

  /** The two lines of pair `p` differ, and until the pair is rewritten its
      first line holds its original text. */
  lemma NotYetDone(doc: seq<string>, p: nat)
    requires 2 * p + 1 < |FenceIndices(doc)|
    ensures FenceIndices(doc)[2 * p] < FenceIndices(doc)[2 * p + 1]
    ensures Done(doc, p, FenceIndices(doc)[2 * p]) == doc[FenceIndices(doc)[2 * p]]
  {
    RankOfIndex(doc, 2 * p);
    FencesIncreasing(doc, |doc|);
  }

  /** Once every pair is rewritten the document is the fence pass. */
  lemma DoneAll(doc: seq<string>, i: nat)
    requires i < |doc|
    ensures Done(doc, |FenceIndices(doc)| / 2, i) == FenceLine(doc, i)
  {
    if HasFence(doc[i]) {
      FenceAtRank(doc, i);
      var n, r := |FenceIndices(doc)|, Rank(doc, i);
      var h := n / 2;
      assert n == 2 * h || n == 2 * h + 1;
      if r >= 2 * h {
        assert r == 2 * h && n == 2 * h + 1;
        assert r % 2 == 0;
      }
    }
  }

  /** Writing pair `p`'s two lines into a document that has its first `p`
      pairs rewritten gives the document with `p + 1` pairs rewritten. */
  lemma PairStep(doc: seq<string>, p: nat, cur: seq<string>)
    requires 2 * p + 1 < |FenceIndices(doc)| && |cur| == |doc|
    requires forall i :: 0 <= i < |doc| ==> cur[i] == Done(doc, p, i)
    ensures var idx := FenceIndices(doc);
            var next := cur[idx[2 * p] := "{{{" + SliceFrom(cur[idx[2 * p]], 3)][idx[2 * p + 1] := "}}}\n"];
            forall i :: 0 <= i < |doc| ==> next[i] == Done(doc, p + 1, i)
  {
    var idx := FenceIndices(doc);
    NotYetDone(doc, p);
    forall i | 0 <= i < |doc|
      ensures Done(doc, p + 1, i) ==
                if i == idx[2 * p] then "{{{" + SliceFrom(doc[i], 3)
                else if i == idx[2 * p + 1] then "}}}\n"
                else Done(doc, p, i)
    {
      DoneStep(doc, p, i);
    }
  }

  /** `sed_snippets(lines)`: computes the pairs from the list as it is on
      entry, then rewrites each pair's lines in place; returns the same list. */
  method SedSnippets(lines: array<string>) returns (out: array<string>)
    modifies lines
    ensures out == lines
    ensures lines[..] == FencesPass(old(lines[..]))
  {
    ghost var doc := lines[..];
    var snippetIdxs := FenceIndices(lines[..]);
    var idxPairs := Pairs(snippetIdxs);
    for p := 0 to |idxPairs|
      invariant forall i :: 0 <= i < lines.Length ==> lines[i] == Done(doc, p, i)
    {
      var (snStart, snEnd) := idxPairs[p];
      ghost var cur := lines[..];
      PairStep(doc, p, cur);
      lines[snStart] := "{{{" + SliceFrom(lines[snStart], 3);
      lines[snEnd] := "}}}\n";
      assert lines[..] == cur[snStart := "{{{" + SliceFrom(cur[snStart], 3)][snEnd := "}}}\n"];
    }
    forall i | 0 <= i < |doc|
      ensures lines[i] == FenceLine(doc, i)
    {
      DoneAll(doc, i);
    }
    out := lines;
  }
}
