/**
 * The Python string operations the backend relies on: `str.strip`,
 * `str.rstrip`, `str.split`, the `in` test for substrings, `str.replace` of
 * one character and `str.title`, on strings of Unicode code points.
 */
module Text {

  /**
   * The characters `str.isspace()` accepts, which are also the characters the
   * regular-expression class `\s` matches in a `str` pattern.
   */
  const Whitespace: set<char> := {
    '\U{9}', '\U{A}', '\U{B}', '\U{C}', '\U{D}', '\U{1C}', '\U{1D}', '\U{1E}',
    '\U{1F}', '\U{20}', '\U{85}', '\U{A0}', '\U{1680}', '\U{2000}', '\U{2001}', '\U{2002}',
    '\U{2003}', '\U{2004}', '\U{2005}', '\U{2006}', '\U{2007}', '\U{2008}', '\U{2009}', '\U{200A}',
    '\U{2028}', '\U{2029}', '\U{202F}', '\U{205F}', '\U{3000}'
  }

  predicate IsSpace(c: char)
  {
    c in Whitespace
  }

  /** `s.lstrip(chars)`: drops the leading characters that are in `chars`. */
  function LStrip(s: string, chars: set<char>): (r: string)
    ensures |r| <= |s| && r == s[|s| - |r|..]
    ensures r == [] || r[0] !in chars
  {
    if s != [] && s[0] in chars then LStrip(s[1..], chars) else s
  }

  /** `s.rstrip(chars)`: drops the trailing characters that are in `chars`. */
  function RStrip(s: string, chars: set<char>): (r: string)
    ensures |r| <= |s| && r == s[..|r|]
    ensures r == [] || r[|r| - 1] !in chars
  {
    if s != [] && s[|s| - 1] in chars then RStrip(s[..|s| - 1], chars) else s
  }

  /** `s.strip(chars)`. */
  function StripChars(s: string, chars: set<char>): string
  {
    RStrip(LStrip(s, chars), chars)
  }

  /** `s.strip()`. */
  function Strip(s: string): string
  {
    StripChars(s, Whitespace)
  }

  /** What `lstrip` drops is a run of characters from `chars`, and it drops all of that run. */
  lemma {:induction false} LStripDrops(s: string, chars: set<char>)
    ensures forall k :: 0 <= k < |s| - |LStrip(s, chars)| ==> s[k] in chars
  {
    if s != [] && s[0] in chars {
      var t := s[1..];
      LStripDrops(t, chars);
      forall k | 1 <= k < |s| - |LStrip(s, chars)|
        ensures s[k] in chars
      {
        assert s[k] == t[k - 1];
      }
    }
  }

  /** What `rstrip` drops is a run of characters from `chars`, and it drops all of that run. */
  lemma {:induction false} RStripDrops(s: string, chars: set<char>)
    ensures forall k :: |RStrip(s, chars)| <= k < |s| ==> s[k] in chars
  {
    if s != [] && s[|s| - 1] in chars {
      var t := s[..|s| - 1];
      RStripDrops(t, chars);
      forall k | |RStrip(s, chars)| <= k < |s| - 1
        ensures s[k] in chars
      {
        assert s[k] == t[k];
      }
    }
  }

  /**
   * `s.strip(chars)` is the part `s[i..j]` of `s` left between a leading and a
   * trailing run of `chars`, and it neither starts nor ends with one of `chars`.
   */
  lemma StripCharsSplits(s: string, chars: set<char>)
    ensures var r := StripChars(s, chars);
      && (r == [] || (r[0] !in chars && r[|r| - 1] !in chars))
      && exists i, j :: 0 <= i <= j <= |s| && r == s[i..j]
           && (forall k :: 0 <= k < i ==> s[k] in chars)
           && (forall k :: j <= k < |s| ==> s[k] in chars)
  {
    StripCharsEnds(s, chars);
    StripCharsRuns(s, chars);
    var i := |s| - |LStrip(s, chars)|;
    var j := i + |StripChars(s, chars)|;
    assert 0 <= i <= j <= |s| && StripChars(s, chars) == s[i..j];
  }

  /** The runs `s.strip(chars)` drops, located: the leading one ends at `i` and the trailing one starts at `j`. */
  lemma StripCharsRuns(s: string, chars: set<char>)
    ensures var i := |s| - |LStrip(s, chars)|;
      var j := i + |StripChars(s, chars)|;
      && 0 <= i <= j <= |s| && StripChars(s, chars) == s[i..j]
      && (forall k :: 0 <= k < i ==> s[k] in chars)
      && (forall k :: j <= k < |s| ==> s[k] in chars)
  {
    var l := LStrip(s, chars);
    var r := RStrip(l, chars);
    LStripDrops(s, chars);
    RStripDrops(l, chars);
    var i := |s| - |l|;
    var j := i + |r|;
    assert r == s[i..j];
    forall k | j <= k < |s|
      ensures s[k] in chars
    {
      assert s[k] == l[k - i];
    }
  }

  /** `s.strip(chars)` neither starts nor ends with one of `chars`. */
  lemma StripCharsEnds(s: string, chars: set<char>)
    ensures var r := StripChars(s, chars); r == [] || (r[0] !in chars && r[|r| - 1] !in chars)
  {
    var r := StripChars(s, chars);
    if r != [] {
      assert r[0] == LStrip(s, chars)[0];
    }
  }

  /** Stripping adds no character: one that is not in `s` is not in `s.strip(chars)`. */
  lemma StripCharsKeepsOut(s: string, chars: set<char>, c: char)
    requires c !in s
    ensures c !in StripChars(s, chars)
  {
  }

  /** Stripping twice strips nothing more. */
  lemma StripCharsIdempotent(s: string, chars: set<char>)
    ensures StripChars(StripChars(s, chars), chars) == StripChars(s, chars)
  {
    var r := StripChars(s, chars);
    assert LStrip(r, chars) == r by {
      if r != [] {
        assert r[0] == LStrip(s, chars)[0];
      }
    }
  }

  /** `sub in s`. */
  predicate Contains(s: string, sub: string)
  {
    exists i :: 0 <= i <= |s| && OccursAt(s, sub, i)
  }

  /** `sub` occurs in `s` starting at index `i`. */
  predicate OccursAt(s: string, sub: string, i: int)
  {
    0 <= i <= |s| - |sub| && s[i..i + |sub|] == sub
  }

  /** `s.replace(a, b)` for single characters `a` and `b`. */
  function ReplaceChar(s: string, a: char, b: char): (r: string)
    ensures |r| == |s|
    ensures forall k :: 0 <= k < |s| ==> r[k] == if s[k] == a then b else s[k]
  {
    if s == [] then [] else [if s[0] == a then b else s[0]] + ReplaceChar(s[1..], a, b)
  }

  /** The pieces joined back with `sep` between them. */
  function Join(pieces: seq<string>, sep: char): string
  {
    if pieces == [] then []
    else if |pieces| == 1 then pieces[0]
    else pieces[0] + [sep] + Join(pieces[1..], sep)
  }

  /** `s.split(sep)` for a one-character separator: always at least one piece. */
  function Split(s: string, sep: char): (pieces: seq<string>)
    ensures |pieces| >= 1
  {
    if s == [] then [[]]
    else
      var rest := Split(s[1..], sep);
      if s[0] == sep then [[]] + rest else [[s[0]] + rest[0]] + rest[1..]
  }

  /** Splitting and joining back gives the original string. */
  lemma {:induction false} JoinSplit(s: string, sep: char)
    ensures Join(Split(s, sep), sep) == s
  {
    if s != [] {
      var rest := Split(s[1..], sep);
      JoinSplit(s[1..], sep);
      if s[0] != sep {
        if |rest| == 1 {
          assert Split(s, sep) == [[s[0]] + rest[0]];
        } else {
          var tail := rest[1..];
          assert Split(s, sep) == [[s[0]] + rest[0]] + tail;
          assert Join(rest, sep) == rest[0] + [sep] + Join(tail, sep);
          assert ([s[0]] + rest[0]) + [sep] + Join(tail, sep) == [s[0]] + (rest[0] + [sep] + Join(tail, sep));
        }
      }
    }
  }

  /** No piece contains the separator. */
  lemma {:induction false} SplitPiecesFree(s: string, sep: char)
    ensures forall p :: p in Split(s, sep) ==> sep !in p
  {
    if s != [] {
      SplitPiecesFree(s[1..], sep);
      var rest := Split(s[1..], sep);
      if s[0] != sep {
        assert rest[0] in rest;
        forall p | p in Split(s, sep)
          ensures sep !in p
        {
          if p != [s[0]] + rest[0] {
            assert p in rest[1..];
          }
        }
      }
    }
  }

  /**
   * `s.split(sep, 1)`: the text before the first `sep` and the text after it,
   * or `s` alone when it has no `sep`.
   */
  function SplitOnce(s: string, sep: char): (pieces: seq<string>)
    ensures sep !in s ==> pieces == [s]
    ensures sep in s ==> |pieces| == 2 && sep !in pieces[0] && pieces[0] + [sep] + pieces[1] == s
  {
    if s == [] then [s]
    else if s[0] == sep then [[], s[1..]]
    else
      var rest := SplitOnce(s[1..], sep);
      if |rest| == 1 then [s] else [[s[0]] + rest[0], rest[1]]
  }

  predicate IsUpper(c: char)
  {
    'A' <= c <= 'Z'
  }

  predicate IsLower(c: char)
  {
    'a' <= c <= 'z'
  }

  /** A character that has an upper and a lower case. */
  predicate IsCased(c: char)
  {
    IsUpper(c) || IsLower(c)
  }

  function ToUpper(c: char): (u: char)
    ensures IsCased(u) == IsCased(c)
  {
    if IsLower(c) then (c as int - 32) as char else c
  }

  function ToLower(c: char): (l: char)
    ensures IsCased(l) == IsCased(c)
  {
    if IsUpper(c) then (c as int + 32) as char else c
  }

  /**
   * `str.title()` from the point where the previous character was (or was not)
   * cased: a cased character right after an uncased one is upper-cased, every
   * other cased character is lower-cased.
   */
  function TitleFrom(s: string, previousCased: bool): (r: string)
    ensures |r| == |s|
  {
    if s == [] then []
    else [if previousCased then ToLower(s[0]) else ToUpper(s[0])] + TitleFrom(s[1..], IsCased(s[0]))
  }

  function Title(s: string): string
  {
    TitleFrom(s, false)
  }

  /**
   * Each character of `Title(s)` is upper-cased when it starts a word (the
   * character before it is not cased) and lower-cased otherwise, and casedness
   * is kept, so word boundaries stay where they were.
   */
  lemma {:induction false} TitleFromCharacters(s: string, previousCased: bool)
    ensures var r := TitleFrom(s, previousCased);
      forall k :: 0 <= k < |s| ==>
        && IsCased(r[k]) == IsCased(s[k])
        && r[k] == if (if k == 0 then previousCased else IsCased(s[k - 1])) then ToLower(s[k]) else ToUpper(s[k])
  {
    if s != [] {
      TitleFromCharacters(s[1..], IsCased(s[0]));
      var r := TitleFrom(s, previousCased);
      forall k | 1 <= k < |s|
        ensures r[k] == TitleFrom(s[1..], IsCased(s[0]))[k - 1]
      {
      }
    }
  }

  /** Title-casing a title-cased string changes nothing. */
  lemma {:induction false} TitleFromIdempotent(s: string, previousCased: bool)
    ensures TitleFrom(TitleFrom(s, previousCased), previousCased) == TitleFrom(s, previousCased)
  {
    if s != [] {
      var c := if previousCased then ToLower(s[0]) else ToUpper(s[0]);
      TitleFromIdempotent(s[1..], IsCased(s[0]));
      assert TitleFrom(s, previousCased) == [c] + TitleFrom(s[1..], IsCased(s[0]));
      assert IsCased(c) == IsCased(s[0]);
      assert (if previousCased then ToLower(c) else ToUpper(c)) == c;
    }
  }
}
