/** The Python `str` operations the chat handler and the genre-table parse rely on:
    `isspace`, `strip` (with and without a character set), `lower`, `title`,
    `split`, `replace(c, "")` and the substring test `needle in hay`.
    Case mapping is ASCII-only: exact for the classifier answers; see the README for where
    it is not. */
module Text {

  /** Python's `str.isspace()` for one character: the characters that `\s` matches in a
      `str` pattern and that `str.strip()` removes. */
  predicate IsSpace(c: char) {
    || ('\t' <= c <= '\r')
    || ('\U{1C}' <= c <= '\U{1F}')
    || c == ' '
    || c == '\U{85}'
    || c == '\U{A0}'
    || c == '\U{1680}'
    || ('\U{2000}' <= c <= '\U{200A}')
    || c == '\U{2028}'
    || c == '\U{2029}'
    || c == '\U{202F}'
    || c == '\U{205F}'
    || c == '\U{3000}'
  }

  /** `s[i..j]` is what is left of `s` once the runs of `drop` characters at both
      ends are removed: everything outside is `drop`, and the kept part, when not
      empty, neither starts nor ends with a `drop` character. */
  ghost predicate TrimBounds(s: string, drop: char -> bool, i: int, j: int) {
    && 0 <= i <= j <= |s|
    && (forall k | 0 <= k < i :: drop(s[k]))
    && (forall k | j <= k < |s| :: drop(s[k]))
    && (i < j ==> !drop(s[i]) && !drop(s[j - 1]))
  }

  /** `r` is `s` stripped of `drop` characters at both ends: the result `str.strip`
      promises. */
  ghost predicate IsTrimOf(s: string, r: string, drop: char -> bool) {
    exists i, j :: TrimBounds(s, drop, i, j) && r == s[i..j]
  }

  /** Removes the leading characters satisfying `drop`. */
  function TrimStart(s: string, drop: char -> bool): (r: string)
    ensures |r| <= |s| && r == s[|s| - |r|..]
    ensures forall k | 0 <= k < |s| - |r| :: drop(s[k])
    ensures r == [] || !drop(r[0])
    decreases |s|
  {
    if |s| > 0 && drop(s[0]) then TrimStart(s[1..], drop) else s
  }

  /** Removes the trailing characters satisfying `drop`. */
  function TrimEnd(s: string, drop: char -> bool): (r: string)
    ensures |r| <= |s| && r == s[..|r|]
    ensures forall k | |r| <= k < |s| :: drop(s[k])
    ensures r == [] || !drop(r[|r| - 1])
    decreases |s|
  {
    if |s| > 0 && drop(s[|s| - 1]) then TrimEnd(s[..|s| - 1], drop) else s
  }

  /** Python's `s.strip(chars)`, with the character set given as a predicate. */
  function Trim(s: string, drop: char -> bool): (r: string)
    ensures IsTrimOf(s, r, drop)
  {
    var a := TrimStart(s, drop);
    var r := TrimEnd(a, drop);
    TrimStartEnd(s, a, r, drop);
    r
  }

  /** The two halves of `Trim` together leave exactly the bounds `TrimBounds` asks for:
      the premises are the contracts of `TrimStart` and `TrimEnd`. */
  lemma TrimStartEnd(s: string, a: string, r: string, drop: char -> bool)
    requires |a| <= |s| && a == s[|s| - |a|..]
    requires forall k | 0 <= k < |s| - |a| :: drop(s[k])
    requires a == [] || !drop(a[0])
    requires |r| <= |a| && r == a[..|r|]
    requires forall k | |r| <= k < |a| :: drop(a[k])
    requires r == [] || !drop(r[|r| - 1])
    ensures TrimBounds(s, drop, |s| - |a|, |s| - |a| + |r|)
    ensures r == s[|s| - |a|..|s| - |a| + |r|]
  {
  }

  /** Python's `s.strip()`. */
  function Strip(s: string): (r: string)
    ensures IsTrimOf(s, r, IsSpace)
  {
    Trim(s, IsSpace)
  }

  /** There is only one way to trim a string: `IsTrimOf` pins the result down, so
      `Trim` is the unique function meeting it. */
  lemma TrimUnique(s: string, r1: string, r2: string, drop: char -> bool)
    requires IsTrimOf(s, r1, drop) && IsTrimOf(s, r2, drop)
    ensures r1 == r2
  {
  }

  /** Trimming is idempotent. */
  lemma TrimIdempotent(s: string, drop: char -> bool)
    ensures Trim(Trim(s, drop), drop) == Trim(s, drop)
  {
  }

  predicate IsUpper(c: char) {
    'A' <= c <= 'Z'
  }

  predicate IsLower(c: char) {
    'a' <= c <= 'z'
  }

  /** An ASCII letter: the characters `str.title` treats as cased in this model. */
  predicate IsLetter(c: char) {
    IsUpper(c) || IsLower(c)
  }

  function LowerChar(c: char): char {
    if IsUpper(c) then (c as int + 32) as char else c
  }

  function UpperChar(c: char): char {
    if IsLower(c) then (c as int - 32) as char else c
  }

  /** Python's `s.lower()` on ASCII letters; every other character is kept. */
  function Lower(s: string): (r: string)
    ensures |r| == |s|
    ensures forall i | 0 <= i < |r| :: !IsUpper(r[i])
    ensures forall i | 0 <= i < |s| :: !IsUpper(s[i]) ==> r[i] == s[i]
    ensures forall i | 0 <= i < |s| :: IsUpper(s[i]) ==> IsLower(r[i]) && UpperChar(r[i]) == s[i]
  {
    seq(|s|, i requires 0 <= i < |s| => LowerChar(s[i]))
  }

  /** Python's `s.title()` on ASCII letters: a character is upper-cased when the
      character before it is not a letter (or there is none) and lower-cased
      otherwise. */
  function Title(s: string): (r: string)
    ensures |r| == |s|
    ensures forall i | 0 <= i < |s| :: LowerChar(r[i]) == LowerChar(s[i])
    ensures forall i | 0 <= i < |s| :: !IsLetter(s[i]) ==> r[i] == s[i]
    ensures forall i | 0 <= i < |s| && IsLetter(s[i]) ::
      IsUpper(r[i]) <==> i == 0 || !IsLetter(s[i - 1])
  {
    var r := seq(|s|, i requires 0 <= i < |s| =>
      if i > 0 && IsLetter(s[i - 1]) then LowerChar(s[i]) else UpperChar(s[i]));
    assert forall i | 0 <= i < |s| :: LowerChar(r[i]) == LowerChar(s[i]) by {
      forall i | 0 <= i < |s| ensures LowerChar(r[i]) == LowerChar(s[i]) {
        CaseChar(s[i]);
      }
    }
    assert forall i | 0 <= i < |s| && IsLetter(s[i]) :: IsUpper(r[i]) <==> i == 0 || !IsLetter(s[i - 1]) by {
      forall i | 0 <= i < |s| && IsLetter(s[i]) ensures IsUpper(r[i]) <==> i == 0 || !IsLetter(s[i - 1]) {
        CaseChar(s[i]);
      }
    }
    r
  }

  /** Case mapping of one character: both mappings agree with `LowerChar` up to case,
      and on a letter `UpperChar` gives a capital and `LowerChar` does not. */
  lemma CaseChar(c: char)
    ensures LowerChar(LowerChar(c)) == LowerChar(c)
    ensures LowerChar(UpperChar(c)) == LowerChar(c)
    ensures IsLetter(c) ==> IsUpper(UpperChar(c)) && !IsUpper(LowerChar(c))
  {
  }

  /** Title-casing twice is title-casing once: the genre table holds fixed points of
      `Title`. */
  lemma TitleIdempotent(s: string)
    ensures Title(Title(s)) == Title(s)
  {
  }

  /** `needle` occurs in `hay` starting at position `i`. */
  predicate OccursAt(hay: string, needle: string, i: nat) {
    i + |needle| <= |hay| && hay[i..i + |needle|] == needle
  }

  /** Python's `needle in hay` for strings: `needle` occurs as a contiguous block.
      The empty string occurs in every string. */
  predicate Contains(hay: string, needle: string) {
    exists i: nat | i <= |hay| :: OccursAt(hay, needle, i)
  }

  /** A needle holding a character that the haystack lacks does not occur in it. */
  lemma MissingCharNotContained(hay: string, needle: string, c: char)
    requires c in needle && c !in hay
    ensures !Contains(hay, needle)
  {
  }

  /** Python's `s.replace(c, "")`: `s` with every `c` deleted, order kept. */
  function RemoveAll(s: string, c: char): (r: string)
    ensures c !in r
    ensures forall x :: x in r <==> x in s && x != c
    ensures multiset(r) == multiset(s)[c := 0]
    ensures |r| <= |s|
    decreases |s|
  {
    if |s| == 0 then []
    else
      var rest := RemoveAll(s[1..], c);
      assert s == [s[0]] + s[1..];
      assert multiset(s) == multiset{s[0]} + multiset(s[1..]);
      if s[0] == c then rest
      else
        assert multiset([s[0]] + rest) == multiset{s[0]} + multiset(rest);
        [s[0]] + rest
  }

  /** Deleting distributes over concatenation. Together with `RemoveAllSingle` this pins
      the result down, order included: `RemoveAll` keeps the other characters in place. */
  lemma {:induction false} RemoveAllAppend(a: string, b: string, c: char)
    ensures RemoveAll(a + b, c) == RemoveAll(a, c) + RemoveAll(b, c)
    decreases |a|
  {
    if |a| == 0 {
      assert a + b == b;
    } else {
      var ab := a + b;
      assert ab[0] == a[0];
      assert ab[1..] == a[1..] + b;
      RemoveAllAppend(a[1..], b, c);
    }
  }

  /** A single character is kept exactly when it is not `c`. */
  lemma RemoveAllSingle(x: char, c: char)
    ensures RemoveAll([x], c) == if x == c then [] else [x]
  {
    assert [x][1..] == [];
  }

  /** The inverse of `Split`: the pieces glued back with the separator between them. */
  function Join(pieces: seq<string>, sep: char): string
    decreases |pieces|
  {
    if |pieces| == 0 then []
    else if |pieces| == 1 then pieces[0]
    else pieces[0] + [sep] + Join(pieces[1..], sep)
  }

  /** Python's `s.split(sep)` for a one-character separator: always at least one piece
      (the empty string splits into `[""]`), no piece holds the separator, and joining the
      pieces gives back `s`. */
  function Split(s: string, sep: char): (r: seq<string>)
    ensures |r| >= 1
    ensures forall p <- r :: sep !in p
    ensures Join(r, sep) == s
    decreases |s|
  {
    if |s| == 0 then [[]]
    else
      var rest := Split(s[1..], sep);
      if s[0] == sep then
        assert [s[0]] + Join(rest, sep) == s;
        [[]] + rest
      else
        var r := [[s[0]] + rest[0]] + rest[1..];
        assert r[1..] == rest[1..];
        assert Join(r, sep) == [s[0]] + Join(rest, sep) by {
          if |rest| > 1 {
            assert Join(r, sep) == r[0] + [sep] + Join(rest[1..], sep);
          }
        }
        assert [s[0]] + Join(rest, sep) == s;
        r
  }
}
