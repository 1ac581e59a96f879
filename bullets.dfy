/**
 * `sed_bullets`: for each glyph of the bullet table, in its order, every
 * line has the first occurrence of that glyph replaced by `*`. The pass
 * builds a new list for each glyph instead of writing into the old one.
 */
module Bullets {
  import opened PyText

  /** The keys of `bullets_corr`, in insertion order: U+2022, U+25E6,
      U+25B8, U+25B9. Every one of them maps to `*`, they are distinct, and
      `*` is not among them. */
  function Glyphs(): (g: seq<char>)
    ensures |g| == 4 && Distinct(g) && '*' !in g
  {
    ['\U{2022}', '\U{25E6}', '\U{25B8}', '\U{25B9}']
  }

  /** The line after the first `|gs|` rounds of the glyph loop. */
  function ApplyGlyphs(line: string, gs: seq<char>): (r: string)
    ensures |r| == |line|
  {
    if gs == [] then line
    else ReplaceFirst(ApplyGlyphs(line, gs[..|gs| - 1]), gs[|gs| - 1], '*')
  }

  /** What `sed_bullets` leaves in one line. */
  function BulletRule(line: string): (r: string)
    ensures |r| == |line|
  {
    ApplyGlyphs(line, Glyphs())
  }

  /** The document after `sed_bullets`. */
  function BulletsPass(doc: seq<string>): (r: seq<string>)
    ensures |r| == |doc|
    ensures forall i :: 0 <= i < |doc| ==> |r[i]| == |doc[i]|
  {
    seq(|doc|, i requires 0 <= i < |doc| => BulletRule(doc[i]))
  }

  /** No character occurs twice in `gs`. */
  predicate Distinct(gs: seq<char>) {
    forall i, j :: 0 <= i < j < |gs| ==> gs[i] != gs[j]
  }

  /** Replacing distinct glyphs by a character outside them, one round per
      glyph: a position changes exactly when it holds the first occurrence
      of one of the glyphs, and then it holds `*`. */
  lemma {:induction false} ApplyGlyphsAt(line: string, gs: seq<char>)
    requires Distinct(gs) && '*' !in gs
    ensures |ApplyGlyphs(line, gs)| == |line|
    ensures forall j :: 0 <= j < |line| ==>
              ApplyGlyphs(line, gs)[j] == if line[j] in gs && FirstAt(line, line[j], j) then '*' else line[j]
  {
    if gs != [] {
      var front, g := gs[..|gs| - 1], gs[|gs| - 1];
      assert forall c :: c in gs <==> c in front || c == g;
      ApplyGlyphsAt(line, front);
      var t := ApplyGlyphs(line, front);
      assert g !in front;
      forall j | 0 <= j < |line|
        ensures t[j] == g <==> line[j] == g
      {
      }
      forall j | 0 <= j < |line|
        ensures FirstAt(t, g, j) <==> FirstAt(line, g, j)
      {
      }
    }
  }

  /** The bullet rule at each position of a line: a glyph that occurs there
      for the first time in the line becomes `*`, each later occurrence of
      the same glyph stays, and every other character stays. */
  lemma BulletRuleAt(line: string)
    ensures |BulletRule(line)| == |line|
    ensures forall j :: 0 <= j < |line| ==>
              BulletRule(line)[j] == if line[j] in Glyphs() && FirstAt(line, line[j], j) then '*' else line[j]
  {
    ApplyGlyphsAt(line, Glyphs());
  }

  /** The position of a glyph in the line plays no part: whatever text
      comes before its first occurrence, that occurrence becomes `*`, and
      every later occurrence of the same glyph stays. */
  lemma BulletAnywhere(pre: string, g: char, post: string)
    requires g in Glyphs() && g !in pre
    ensures BulletRule(pre + [g] + post)[|pre|] == '*'
    ensures forall j :: 0 <= j < |post| && post[j] == g ==> BulletRule(pre + [g] + post)[|pre| + 1 + j] == g
  {
    var line := pre + [g] + post;
    BulletRuleAt(line);
    assert line[|pre|] == g;
    forall j | 0 <= j < |pre|
      ensures line[j] != g
    {
      assert line[j] == pre[j];
    }
    assert FirstAt(line, g, |pre|);
    forall j | 0 <= j < |post| && post[j] == g
      ensures BulletRule(line)[|pre| + 1 + j] == g
    {
      assert line[|pre| + 1 + j] == post[j];
      assert !FirstAt(line, g, |pre| + 1 + j);
    }
  }

  /** `sed_bullets` keeps the number of lines and each line's length, only
      changes glyph positions into `*`, and leaves a line without glyphs
      as it was. */
  lemma BulletsPassShape(doc: seq<string>)
    ensures |BulletsPass(doc)| == |doc|
    ensures forall i :: 0 <= i < |doc| ==> |BulletsPass(doc)[i]| == |doc[i]|
    ensures forall i, j :: 0 <= i < |doc| && 0 <= j < |doc[i]| ==>
              BulletsPass(doc)[i][j] == doc[i][j] || (doc[i][j] in Glyphs() && BulletsPass(doc)[i][j] == '*')
    ensures forall i :: 0 <= i < |doc| && (forall j :: 0 <= j < |doc[i]| ==> doc[i][j] !in Glyphs()) ==>
              BulletsPass(doc)[i] == doc[i]
  {
    forall i | 0 <= i < |doc|
      ensures |BulletsPass(doc)[i]| == |doc[i]|
      ensures forall j :: 0 <= j < |doc[i]| ==>
                BulletsPass(doc)[i][j] == doc[i][j] || (doc[i][j] in Glyphs() && BulletsPass(doc)[i][j] == '*')
      ensures (forall j :: 0 <= j < |doc[i]| ==> doc[i][j] !in Glyphs()) ==> BulletsPass(doc)[i] == doc[i]
    {
      BulletRuleAt(doc[i]);
    }
  }

  /** One more round of the glyph loop. */
  lemma ApplyGlyphsStep(line: string, g: nat)
    requires g < |Glyphs()|
    ensures ApplyGlyphs(line, Glyphs()[..g + 1]) == ReplaceFirst(ApplyGlyphs(line, Glyphs()[..g]), Glyphs()[g], '*')
  {
    assert Glyphs()[..g + 1][..g] == Glyphs()[..g];
  }

  /** `sed_bullets(lines)`: one list comprehension per glyph, each building
      a fresh list from the previous one. */
  method SedBullets(lines: seq<string>) returns (out: seq<string>)
    ensures out == BulletsPass(lines)
  {
    out := lines;
    for g := 0 to |Glyphs()|
      invariant |out| == |lines|
      invariant forall i :: 0 <= i < |lines| ==> out[i] == ApplyGlyphs(lines[i], Glyphs()[..g])
    {
      var b := Glyphs()[g];
      var next := seq(|out|, i requires 0 <= i < |out| => ReplaceFirst(out[i], b, '*'));
      forall i | 0 <= i < |lines|
        ensures next[i] == ApplyGlyphs(lines[i], Glyphs()[..g + 1])
      {
        ApplyGlyphsStep(lines[i], g);
      }
      out := next;
    }
    assert Glyphs()[..|Glyphs()|] == Glyphs();
  }
}
