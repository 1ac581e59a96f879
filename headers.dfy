/**
 * `sed_headers`: a line matching `^(#+) (.*)$` becomes
 * `'=' * level + ' ' + title + ' ' + '=' * level + '\n'`,
 * where `level` is the length of the run of `#` and `title` the capture.
 */
module Headers {
  import opened Wrappers
  import opened PyText

  /** A matched header line: the number of leading `#` and the title text. */
  datatype Header = Header(level: nat, title: string)

  /** Length of the leading run of `#` in `s`. */
  function HashRun(s: string): (k: nat)
    ensures k <= |s|
    ensures forall i :: 0 <= i < k ==> s[i] == '#'
    ensures k == |s| || s[k] != '#'
  {
    if s != [] && s[0] == '#' then 1 + HashRun(s[1..]) else 0
  }

  /** `re.match('^(#+) (.*)$', line)`. The greedy `#+` can only give back
      a `#`, never a space, so the run is always the whole leading run. */
  function MatchHeader(line: string): (r: Option<Header>)
    ensures r.Some? ==> r.value.level >= 1 && '\n' !in r.value.title
    ensures r.Some? ==>
              var p := Repeat('#', r.value.level) + " ";
              line == p + r.value.title || line == p + r.value.title + "\n"
  {
    var k := HashRun(line);
    if 1 <= k < |line| && line[k] == ' ' then
      match MatchRest(line[k + 1..])
      case Some(t) =>
        HashesThenSpace(line, k);
        assert line == line[..k + 1] + line[k + 1..];
        Some(Header(k, t))
      case None => None
    else None
  }

  /** `"{0} {1} {0}\n".format('=' * lvl, s)`: the title between two runs of
      `level` equal signs, each run separated from it by a space, and a
      final newline. */
  function RenderHeader(h: Header): (r: string)
    ensures |r| == 2 * h.level + |h.title| + 3
    ensures r[..h.level] == Repeat('=', h.level) && r[h.level] == ' '
    ensures r[h.level + 1..h.level + 1 + |h.title|] == h.title
    ensures r[|r| - 2 - h.level] == ' ' && r[|r| - 1 - h.level..|r| - 1] == Repeat('=', h.level)
    ensures r[|r| - 1] == '\n'
  {
    var eq := Repeat('=', h.level);
    var r := eq + " " + h.title + " " + eq + "\n";
    assert r == eq + (" " + h.title + " " + eq + "\n");
    assert r == (eq + " " + h.title) + (" " + eq + "\n");
    assert r == (eq + " " + h.title + " ") + (eq + "\n");
    r
  }

  /** What the loop body of `sed_headers` leaves at one index. */
  function HeaderRule(line: string): (r: string)
    ensures r == line || (MatchHeader(line).Some? && r != [] && r[0] == '=' && MatchHeader(r).None?)
  {
    match MatchHeader(line)
    case Some(h) =>
      var out := RenderHeader(h);
      assert out[0] == '=' && HashRun(out) == 0;
      out
    case None => line
  }

  /** The document after `sed_headers`. */
  function HeadersPass(doc: seq<string>): (r: seq<string>)
    ensures |r| == |doc|
    ensures forall i {:trigger r[i]} :: 0 <= i < |doc| && r[i] != doc[i] ==> MatchHeader(doc[i]).Some?
  {
    seq(|doc|, i requires 0 <= i < |doc| => HeaderRule(doc[i]))
  }

  /** A line is a header of level `k` and title `t` exactly when it is `k`
      hashes, a space and `t`, with `t` free of newlines and at most one
      newline after it. */
  lemma MatchHeaderIff(line: string, k: nat, t: string)
    ensures MatchHeader(line) == Some(Header(k, t)) <==>
            && k >= 1
            && '\n' !in t
            && (line == Repeat('#', k) + " " + t || line == Repeat('#', k) + " " + t + "\n")
  {
    if k >= 1 && '\n' !in t && (line == Repeat('#', k) + " " + t || line == Repeat('#', k) + " " + t + "\n") {
      HeaderShapeMatches(line, k, t);
    }
  }

  /** A line whose `#` run of length `k` is followed by a space starts with
      `k` hashes and a space. */
  lemma HashesThenSpace(line: string, k: nat)
    requires k < |line| && line[k] == ' '
    requires forall i :: 0 <= i < k ==> line[i] == '#'
    ensures line[..k + 1] == Repeat('#', k) + " "
  {
    var p := Repeat('#', k) + " ";
    assert |p| == k + 1;
    forall i | 0 <= i < k + 1
      ensures line[..k + 1][i] == p[i]
    {
    }
  }

  /** The building direction of `MatchHeaderIff`. */
  lemma HeaderShapeMatches(line: string, k: nat, t: string)
    requires k >= 1 && '\n' !in t
    requires line == Repeat('#', k) + " " + t || line == Repeat('#', k) + " " + t + "\n"
    ensures MatchHeader(line) == Some(Header(k, t))
  {
    var p := Repeat('#', k) + " ";
    assert line[..k + 1] == p;
    assert HashRun(line) == k by {
      assert line[k] == ' ';
      HashRunOfPrefix(line, k);
    }
    assert line[k + 1..] == t || line[k + 1..] == t + "\n";
    MatchRestIff(line[k + 1..], t);
  }

  /** If the first `k` characters are `#` and the next is not, the run is `k`. */
  lemma {:induction false} HashRunOfPrefix(s: string, k: nat)
    requires k < |s| && s[k] != '#'
    requires forall i :: 0 <= i < k ==> s[i] == '#'
    ensures HashRun(s) == k
  {
    if k > 0 {
      HashRunOfPrefix(s[1..], k - 1);
    }
  }

  /** A header line of any level is rewritten into the `=` form. */
  lemma HeaderRewritten(k: nat, t: string, newline: bool)
    requires k >= 1 && '\n' !in t
    ensures var line := Repeat('#', k) + " " + t + (if newline then "\n" else "");
            HeaderRule(line) == Repeat('=', k) + " " + t + " " + Repeat('=', k) + "\n"
  {
    var line := Repeat('#', k) + " " + t + (if newline then "\n" else "");
    if newline {
      MatchHeaderIff(line, k, t);
    } else {
      assert line == Repeat('#', k) + " " + t;
      MatchHeaderIff(line, k, t);
    }
  }

  /** A level-3 header, as in `### Section`, becomes `=== Section ===`. */
  lemma LevelThreeHeader(t: string)
    requires '\n' !in t
    ensures HeaderRule("### " + t + "\n") == "=== " + t + " ===\n"
  {
    var line := "### " + t + "\n";
    RepeatThree('#');
    RepeatThree('=');
    assert line == Repeat('#', 3) + " " + t + "\n";
    HeaderShapeMatches(line, 3, t);
    assert "===" + " " + t + " " + "===" + "\n" == "=== " + t + " ===\n";
  }

  /** A run of `#` not followed by a space leaves the line as it is. */
  lemma HashWithoutSpace()
    ensures HeaderRule("##x\n") == "##x\n"
  {
    assert HashRun("##x\n") == 2 by { HashRunOfPrefix("##x\n", 2); }
  }

  /** Output of the rule starts with `=` or is the input, so a second
      application changes nothing. */
  lemma HeaderRuleIdempotent(line: string)
    ensures HeaderRule(HeaderRule(line)) == HeaderRule(line)
  {
    match MatchHeader(line)
    case Some(h) =>
      var out := RenderHeader(h);
      assert out[0] == '=';
      assert HashRun(out) == 0;
    case None =>
  }

  /** `sed_headers` keeps the number of lines, rewrites exactly the header
      lines and is idempotent. */
  lemma HeadersPassShape(doc: seq<string>)
    ensures |HeadersPass(doc)| == |doc|
    ensures forall i :: 0 <= i < |doc| && MatchHeader(doc[i]).None? ==> HeadersPass(doc)[i] == doc[i]
    ensures forall i :: 0 <= i < |doc| && MatchHeader(doc[i]).Some? ==>
              HeadersPass(doc)[i] == RenderHeader(MatchHeader(doc[i]).value)
    ensures HeadersPass(HeadersPass(doc)) == HeadersPass(doc)
  {
    var once := HeadersPass(doc);
    forall i | 0 <= i < |doc|
      ensures HeadersPass(once)[i] == once[i]
    {
      HeaderRuleIdempotent(doc[i]);
    }
  }

  /** One iteration of the `sed_headers` loop, on the document with its
      first `i` lines rewritten: line `i` still holds its original text, and
      the rule is applied to exactly that line. */
  lemma HeaderStep(doc: seq<string>, i: nat)
    requires i < |doc|
    ensures (HeadersPass(doc)[..i] + doc[i..])[i] == doc[i]
    ensures (HeadersPass(doc)[..i] + doc[i..])[i := HeaderRule(doc[i])] == HeadersPass(doc)[..i + 1] + doc[i + 1..]
    ensures MatchHeader(doc[i]).Some? ==> HeaderRule(doc[i]) == RenderHeader(MatchHeader(doc[i]).value)
    ensures MatchHeader(doc[i]).None? ==> HeaderRule(doc[i]) == doc[i]
  {
    var a, b := HeadersPass(doc)[..i] + doc[i..], HeadersPass(doc)[..i + 1] + doc[i + 1..];
    assert |a| == |b|;
    forall j | 0 <= j < |a|
      ensures a[i := HeaderRule(doc[i])][j] == b[j]
    {
      if j < i {
        assert a[j] == HeadersPass(doc)[j] == b[j];
      }
    }
  }

  /** `sed_headers(lines)`: rewrites the list in place and returns it. */
  method SedHeaders(lines: array<string>) returns (out: array<string>)
    modifies lines
    ensures out == lines
    ensures lines[..] == HeadersPass(old(lines[..]))
  {
    ghost var doc := lines[..];
    for i := 0 to lines.Length
      invariant lines[..] == HeadersPass(doc)[..i] + doc[i..]
    {
      ghost var cur := lines[..];
      HeaderStep(doc, i);
      var m := MatchHeader(lines[i]);
      if m.Some? {
        lines[i] := RenderHeader(m.value);
      }
      assert lines[..] == cur[i := HeaderRule(doc[i])];
    }
    assert HeadersPass(doc)[..lines.Length] == HeadersPass(doc);
    out := lines;
  }
}
