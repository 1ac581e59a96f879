/**
 * `sed_tags`: a line matching `^@([a-zA-Z-]+)$` becomes `":" + tag + ":\n"`.
 */
module Tags {
  import opened Wrappers
  import opened PyText

  /** The character class `[a-zA-Z-]`: ASCII letters and the hyphen. */
  predicate IsTagChar(c: char) {
    'a' <= c <= 'z' || 'A' <= c <= 'Z' || c == '-'
  }

  predicate IsTagToken(t: string) {
    t != [] && forall i :: 0 <= i < |t| ==> IsTagChar(t[i])
  }

  /** `re.match('^@([a-zA-Z-]+)$', line)`, giving the captured tag. */
  function MatchTag(line: string): (r: Option<string>)
    ensures r.Some? ==> IsTagToken(r.value) && (line == "@" + r.value || line == "@" + r.value + "\n")
  {
    if line != [] && line[0] == '@' then
      match MatchRest(line[1..])
      case Some(t) =>
        assert line == [line[0]] + line[1..];
        if IsTagToken(t) then Some(t) else None
      case None => None
    else None
  }

  /** What the loop body of `sed_tags` leaves at one index. */
  function TagRule(line: string): (r: string)
    ensures r == line || (MatchTag(line).Some? && r != [] && r[0] == ':' && MatchTag(r).None?)
  {
    match MatchTag(line)
    case Some(t) => ":" + t + ":\n"
    case None => line
  }

  /** The document after `sed_tags`. */
  function TagsPass(doc: seq<string>): (r: seq<string>)
    ensures |r| == |doc|
    ensures forall i {:trigger r[i]} :: 0 <= i < |doc| && r[i] != doc[i] ==> MatchTag(doc[i]).Some?
  {
    seq(|doc|, i requires 0 <= i < |doc| => TagRule(doc[i]))
  }

  /** A line is a tag line with tag `t` exactly when it is `@` and `t`, with
      `t` a non-empty run of letters and hyphens, and at most one newline
      after it. */
  lemma MatchTagIff(line: string, t: string)
    ensures MatchTag(line) == Some(t) <==>
            IsTagToken(t) && (line == "@" + t || line == "@" + t + "\n")
  {
    if IsTagToken(t) && (line == "@" + t || line == "@" + t + "\n") {
      TagShapeMatches(line, t);
    }
  }

  /** The building direction of `MatchTagIff`. */
  lemma TagShapeMatches(line: string, t: string)
    requires IsTagToken(t) && (line == "@" + t || line == "@" + t + "\n")
    ensures MatchTag(line) == Some(t)
  {
    var rest := line[1..];
    assert rest == t || rest == t + "\n";
    assert '\n' !in t;
    MatchRestIff(rest, t);
  }

  /** The example tag line `@work` becomes `:work:`. */
  lemma TagRewritten()
    ensures TagRule("@work\n") == ":work:\n"
  {
    MatchTagIff("@work\n", "work");
    assert "@work\n" == "@" + "work" + "\n";
  }

  /** A digit in the token defeats the match: `@tag1` stays as it is. */
  lemma DigitInTagIsKept()
    ensures TagRule("@tag1\n") == "@tag1\n"
  {
    assert MatchRest("tag1\n") == Some("tag1") by {
      assert "tag1\n"[..4] == "tag1";
    }
    assert !IsTagChar("tag1"[3]);
  }

  /** Output of the rule starts with `:` or is the input, so a second
      application changes nothing. */
  lemma TagRuleIdempotent(line: string)
    ensures TagRule(TagRule(line)) == TagRule(line)
  {
    match MatchTag(line)
    case Some(t) =>
      var out := ":" + t + ":\n";
      assert out[0] == ':';
    case None =>
  }

  /** `sed_tags` keeps the number of lines, rewrites exactly the tag lines
      and is idempotent. */
  lemma TagsPassShape(doc: seq<string>)
    ensures |TagsPass(doc)| == |doc|
    ensures forall i :: 0 <= i < |doc| && MatchTag(doc[i]).None? ==> TagsPass(doc)[i] == doc[i]
    ensures forall i :: 0 <= i < |doc| && MatchTag(doc[i]).Some? ==>
              TagsPass(doc)[i] == ":" + MatchTag(doc[i]).value + ":\n"
    ensures TagsPass(TagsPass(doc)) == TagsPass(doc)
  {
    var once := TagsPass(doc);
    forall i | 0 <= i < |doc|
      ensures TagsPass(once)[i] == once[i]
    {
      TagRuleIdempotent(doc[i]);
    }
  }

  /** One iteration of the `sed_tags` loop, on the document with its first
      `i` lines rewritten: line `i` still holds its original text, and the
      rule is applied to exactly that line. */
  lemma TagStep(doc: seq<string>, i: nat)
    requires i < |doc|
    ensures (TagsPass(doc)[..i] + doc[i..])[i] == doc[i]
    ensures (TagsPass(doc)[..i] + doc[i..])[i := TagRule(doc[i])] == TagsPass(doc)[..i + 1] + doc[i + 1..]
    ensures MatchTag(doc[i]).Some? ==> TagRule(doc[i]) == ":" + MatchTag(doc[i]).value + ":\n"
    ensures MatchTag(doc[i]).None? ==> TagRule(doc[i]) == doc[i]
  {
    var a, b := TagsPass(doc)[..i] + doc[i..], TagsPass(doc)[..i + 1] + doc[i + 1..];
    assert |a| == |b|;
    forall j | 0 <= j < |a|
      ensures a[i := TagRule(doc[i])][j] == b[j]
    {
      if j < i {
        assert a[j] == TagsPass(doc)[j] == b[j];
      }
    }
  }

  /** `sed_tags(lines)`: rewrites the list in place and returns it. */
  method SedTags(lines: array<string>) returns (out: array<string>)
    modifies lines
    ensures out == lines
    ensures lines[..] == TagsPass(old(lines[..]))
  {
    ghost var doc := lines[..];
    for i := 0 to lines.Length
      invariant lines[..] == TagsPass(doc)[..i] + doc[i..]
    {
      ghost var cur := lines[..];
      TagStep(doc, i);
      var m := MatchTag(lines[i]);
      if m.Some? {
        lines[i] := ":" + m.value + ":\n";
      }
      assert lines[..] == cur[i := TagRule(doc[i])];
    }
    assert TagsPass(doc)[..lines.Length] == TagsPass(doc);
    out := lines;
  }
}
