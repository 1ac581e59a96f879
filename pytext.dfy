/** The small `Option` type the rules use to report whether a line matched. */
module Wrappers {
  datatype Option<T> = None | Some(value: T)
}

/**
 * The pieces of Python's `str` and `re` behaviour that the conversion rules
 * rely on: `str.isspace`, `str.rstrip()`, `c * n`, `s.replace(a, b, 1)` for a
 * one-character `a`, slicing `s[n:]`, `"```" in s`, and what the tail
 * `(.*)$` of a pattern accepts under `re.match`.
 */
module PyText {
  import opened Wrappers

  /** Python's `str.isspace` on one code point: the characters whose
      bidirectional class is WS, B or S, or whose general category is Zs. */
  predicate IsSpace(c: char) {
    || c == ' '
    || '\t' <= c <= '\r'
    || '\U{1C}' <= c <= '\U{1F}'
    || c == '\U{85}'
    || c == '\U{A0}'
    || c == '\U{1680}'
    || '\U{2000}' <= c <= '\U{200A}'
    || c == '\U{2028}'
    || c == '\U{2029}'
    || c == '\U{202F}'
    || c == '\U{205F}'
    || c == '\U{3000}'
  }

  /** `s.rstrip()`: the longest prefix of `s` that is followed only by
      whitespace and does not itself end in whitespace. */
  function RStrip(s: string): (r: string)
    ensures r <= s
    ensures forall i :: |r| <= i < |s| ==> IsSpace(s[i])
    ensures r == [] || !IsSpace(r[|r| - 1])
  {
    if s != [] && IsSpace(s[|s| - 1]) then RStrip(s[..|s| - 1]) else s
  }

  /** `c * n` for a one-character string `c`. */
  function Repeat(c: char, n: nat): (r: string)
    ensures |r| == n
    ensures forall i :: 0 <= i < n ==> r[i] == c
  {
    if n == 0 then [] else [c] + Repeat(c, n - 1)
  }

  /** `c * 3`. */
  lemma RepeatThree(c: char)
    ensures Repeat(c, 3) == [c, c, c]
  {
    assert Repeat(c, 3) == [c] + Repeat(c, 2);
  }

  /** `i` is the position of the first occurrence of `c` in `s`. */
  predicate FirstAt(s: string, c: char, i: int) {
    0 <= i < |s| && s[i] == c && forall j :: 0 <= j < i ==> s[j] != c
  }

  /** `s.replace(c, d, 1)` for one-character `c` and `d`: only the first
      occurrence of `c` becomes `d`, every other character stays. */
  function ReplaceFirst(s: string, c: char, d: char): (r: string)
    ensures |r| == |s|
    ensures forall i :: 0 <= i < |s| ==> r[i] == if FirstAt(s, c, i) then d else s[i]
    ensures c !in s ==> r == s
  {
    if s == [] then []
    else if s[0] == c then [d] + s[1..]
    else [s[0]] + ReplaceFirst(s[1..], c, d)
  }

  /** `s[n:]`: empty when `s` is shorter than `n`. */
  function SliceFrom(s: string, n: nat): (r: string)
    ensures |s| >= n ==> s == s[..n] + r
    ensures |s| <= n ==> r == []
  {
    if |s| >= n then s[n..] else []
  }

  /** `"```" in s`. A string holding a fence holds a backtick. */
  predicate HasFence(s: string)
    ensures HasFence(s) ==> '`' in s
  {
    |s| >= 3 && ((s[0] == '`' && s[1] == '`' && s[2] == '`') || HasFence(s[1..]))
  }

  /** Three backticks start at position `i` of `s`. */
  predicate FenceAt(s: string, i: int) {
    0 <= i && i + 3 <= |s| && s[i] == '`' && s[i + 1] == '`' && s[i + 2] == '`'
  }

  /** `HasFence` is substring containment of three backticks. */
  lemma {:induction false} HasFenceIff(s: string)
    ensures HasFence(s) <==> exists i :: FenceAt(s, i)
  {
    if |s| >= 3 {
      HasFenceIff(s[1..]);
      if HasFence(s) && !FenceAt(s, 0) {
        var i :| FenceAt(s[1..], i);
        assert FenceAt(s, i + 1);
      }
      if exists i :: FenceAt(s, i) {
        var i :| FenceAt(s, i);
        if i > 0 {
          assert FenceAt(s[1..], i - 1);
        }
      }
    }
  }

  /** A string without a backtick holds no fence. */
  lemma {:induction false} NoBacktickNoFence(s: string)
    requires '`' !in s
    ensures !HasFence(s)
  {
    if |s| >= 3 {
      assert s[0] in s;
      NoBacktickNoFence(s[1..]);
    }
  }

  /** What `(.*)$` accepts with `re.match` outside MULTILINE mode: `.` stops
      at a newline, and `$` matches at the very end or just before a single
      final newline. The capture is the text before that newline. */
  function MatchRest(s: string): (r: Option<string>)
    ensures r.Some? ==> '\n' !in r.value && (s == r.value || s == r.value + "\n")
    ensures r.None? ==> '\n' in s
  {
    if '\n' !in s then Some(s)
    else if s[|s| - 1] == '\n' && '\n' !in s[..|s| - 1] then
      assert s == s[..|s| - 1] + "\n";
      Some(s[..|s| - 1])
    else None
  }

  /** `(.*)$` captures `t` exactly when `t` has no newline and the text is `t`
      or `t` followed by one newline. */
  lemma MatchRestIff(s: string, t: string)
    ensures MatchRest(s) == Some(t) <==> '\n' !in t && (s == t || s == t + "\n")
  {
    if s == t + "\n" {
      assert s[..|s| - 1] == t;
    }
  }
}
