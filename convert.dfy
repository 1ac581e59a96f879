/**
 * `convert_file`, without the file reading and writing around it: it takes
 * the lines as `readlines()` returns them, turns the first line into the
 * page title, then runs the header, tag, bullet and fence passes in turn.
 */
module ConvertNotes {
  import opened Wrappers
  import opened PyText
  import opened Headers
  import opened Tags
  import opened Bullets
  import opened Snippets

  /** The result of converting one file: the lines to write, or the
      `IndexError` raised when the file has no lines at all. */
  datatype Outcome = Converted(lines: seq<string>) | IndexError

  /** `"= {} =\n".format(line.rstrip())`: the first line without its
      trailing whitespace, newline included, between `= ` and ` =` and
      ended by a newline. */
  function TitleLine(line: string): (r: string)
    ensures |r| == |RStrip(line)| + 5
    ensures r[..2] == "= " && r[|r| - 3..] == " =\n"
    ensures r[2..|r| - 3] == RStrip(line)
  {
    "= " + RStrip(line) + " =\n"
  }

  /** The title rule: line 0 becomes the title line and nothing else
      changes; an empty list has no line 0. */
  function Title(doc: seq<string>): (r: Option<seq<string>>)
    ensures r.None? <==> doc == []
    ensures r.Some? ==> |r.value| == |doc| && r.value[0] == TitleLine(doc[0])
    ensures r.Some? ==> forall i :: 1 <= i < |doc| ==> r.value[i] == doc[i]
  {
    if doc == [] then None else Some([TitleLine(doc[0])] + doc[1..])
  }

  /** The whole transformation of `convert_file`: only an empty file
      fails, and a converted file has as many lines as were read. */
  function Convert(doc: seq<string>): (r: Outcome)
    ensures r.IndexError? <==> doc == []
    ensures r.Converted? ==> |r.lines| == |doc|
  {
    match Title(doc)
    case None => IndexError
    case Some(titled) => Converted(FencesPass(BulletsPass(TagsPass(HeadersPass(titled)))))
  }

  /** `convert_file` on the lines read from `src`: the document is one list
      rewritten in place by the title rule, `sed_headers` and `sed_tags`;
      `sed_bullets` hands back a new list, which `sed_snippets` rewrites in
      place. The caller writes `r.lines` to `dst`. */
  method ConvertFile(read: seq<string>) returns (r: Outcome)
    ensures r == Convert(read)
  {
    var lines := new string[|read|](i requires 0 <= i < |read| => read[i]);
    assert lines[..] == read;
    if lines.Length == 0 {
      return IndexError;
    }
    lines[0] := TitleLine(lines[0]);
    assert lines[..] == Title(read).value;
    lines := SedHeaders(lines);
    lines := SedTags(lines);
    var bulleted := SedBullets(lines[..]);
    lines := new string[|bulleted|](i requires 0 <= i < |bulleted| => bulleted[i]);
    assert lines[..] == bulleted;
    lines := SedSnippets(lines);
    return Converted(lines[..]);
  }

  /** Title rule on a two-line file. */
  lemma TitleOfTwoLines(first: string, second: string, stripped: string)
    requires RStrip(first) == stripped
    ensures Title([first, second]) == Some(["= " + stripped + " =\n", second])
  {
    var doc := [first, second];
    assert doc[1..] == [second];
    assert [TitleLine(first)] + [second] == ["= " + stripped + " =\n", second];
  }

  /** A line that every line rule keeps and that holds no fence. */
  predicate Plain(line: string) {
    HeaderRule(line) == line && TagRule(line) == line && BulletRule(line) == line && !HasFence(line)
  }

  /** Two plain lines come out of the four passes unchanged. */
  lemma PlainLinesKept(a: string, b: string)
    requires Plain(a) && Plain(b)
    ensures HeadersPass([a, b]) == [a, b]
    ensures FencesPass(BulletsPass(TagsPass([a, b]))) == [a, b]
  {
    var doc := [a, b];
    assert HeadersPass(doc) == doc;
    assert TagsPass(doc) == doc;
    assert BulletsPass(doc) == doc;
    assert FencesPass(doc) == doc;
  }

  /** A line that starts with neither `#` nor `@` and holds no glyph and
      no backtick is plain. */
  lemma PlainLine(line: string)
    requires line != [] && line[0] != '#' && line[0] != '@'
    requires forall j :: 0 <= j < |line| ==> line[j] !in Glyphs()
    requires '`' !in line
    ensures Plain(line)
  {
    assert HashRun(line) == 0;
    BulletRuleAt(line);
    NoBacktickNoFence(line);
  }

  /** A title line is plain when the stripped first line holds no glyph
      and no backtick. */
  lemma TitleLinePlain(t: string)
    requires '`' !in t
    requires forall j :: 0 <= j < |t| ==> t[j] !in Glyphs()
    ensures Plain("= " + t + " =\n")
  {
    var line := "= " + t + " =\n";
    forall j | 0 <= j < |line|
      ensures line[j] !in Glyphs() && line[j] != '`'
    {
      if 2 <= j < 2 + |t| {
        assert line[j] == t[j - 2];
      }
    }
    PlainLine(line);
  }

  /** A level-3 header below the title converts to the `===` form, for any
      header text free of newlines, bullet glyphs and backticks (such as
      `Section`). */
  lemma ConvertHeaderExample(t: string)
    requires '\n' !in t && '`' !in t
    requires forall j :: 0 <= j < |t| ==> t[j] !in Glyphs()
    ensures Convert(["Notes\n", "### " + t + "\n"]) == Converted(["= Notes =\n", "=== " + t + " ===\n"])
  {
    assert RStrip("Notes\n") == "Notes";
    assert "= " + "Notes" + " =\n" == "= Notes =\n";
    TitleOfTwoLines("Notes\n", "### " + t + "\n", "Notes");
    TitleLinePlain("Notes");
    LevelThreeHeader(t);
    SecondLineRewritten("= Notes =\n", "### " + t + "\n", "=== " + t + " ===\n");
    LevelThreePlain(t);
    PlainLinesKept("= Notes =\n", "=== " + t + " ===\n");
  }

  /** A rendered level-3 header is plain when its text is. */
  lemma LevelThreePlain(t: string)
    requires '`' !in t
    requires forall j :: 0 <= j < |t| ==> t[j] !in Glyphs()
    ensures Plain("=== " + t + " ===\n")
  {
    var line := "=== " + t + " ===\n";
    forall j | 0 <= j < |line|
      ensures line[j] !in Glyphs() && line[j] != '`'
    {
      if 4 <= j < 4 + |t| {
        assert line[j] == t[j - 4];
      }
    }
    PlainLine(line);
  }

  /** `sed_headers` on two lines of which only the second is a header. */
  lemma SecondLineRewritten(a: string, b: string, c: string)
    requires HeaderRule(a) == a && HeaderRule(b) == c
    ensures HeadersPass([a, b]) == [a, c]
  {
  }

  /** A tag with a digit is not converted: the file `My Title`, `@tag1`
      comes out with the title rewritten and the tag line as it was. */
  lemma ConvertTagWithDigitExample()
    ensures Convert(["My Title\n", "@tag1\n"]) == Converted(["= My Title =\n", "@tag1\n"])
  {
    assert RStrip("My Title\n") == "My Title";
    assert "= " + "My Title" + " =\n" == "= My Title =\n";
    TitleOfTwoLines("My Title\n", "@tag1\n", "My Title");
    MyTitlePlain();
    DigitTagLinePlain();
    PlainLinesKept("= My Title =\n", "@tag1\n");
  }

  /** The title line `= My Title =` is kept by every line rule. */
  lemma MyTitlePlain()
    ensures Plain("= My Title =\n")
  {
    assert "= " + "My Title" + " =\n" == "= My Title =\n";
    TitleLinePlain("My Title");
  }

  /** The line `@tag1` is kept by every line rule. */
  lemma DigitTagLinePlain()
    ensures Plain("@tag1\n")
  {
    DigitTagNotHeader();
    DigitInTagIsKept();
    DigitTagNoBullet();
    DigitTagNoFence();
  }

  /** `@tag1` does not start with `#`. */
  lemma DigitTagNotHeader()
    ensures HeaderRule("@tag1\n") == "@tag1\n"
  {
    assert HashRun("@tag1\n") == 0;
  }

  /** `@tag1` holds no bullet glyph. */
  lemma DigitTagNoBullet()
    ensures BulletRule("@tag1\n") == "@tag1\n"
  {
    var line := "@tag1\n";
    assert forall j :: 0 <= j < |line| ==> line[j] !in Glyphs();
    BulletNoGlyph(line);
  }

  /** `@tag1` holds no fence. */
  lemma DigitTagNoFence()
    ensures !HasFence("@tag1\n")
  {
    var line := "@tag1\n";
    assert '`' !in line;
    NoBacktickNoFence(line);
  }

  /** A line without any of the four glyphs is kept by the bullet rule. */
  lemma BulletNoGlyph(line: string)
    requires forall j :: 0 <= j < |line| ==> line[j] !in Glyphs()
    ensures BulletRule(line) == line
  {
    BulletRuleAt(line);
  }
}
