/** Python string primitives the detector relies on: `str.lower()`, the
    substring test `x in s`, and `str.split(sep)` with a one-character
    separator. Strings are sequences of Unicode scalar values. */
module Strings {

  predicate IsAsciiUpper(c: char)
  {
    'A' <= c <= 'Z'
  }

  /** `str.lower()` on one character. Every ASCII capital maps to its small
      letter. Two non-ASCII characters lower-case into ASCII and are kept:
      KELVIN SIGN becomes 'k', and LATIN CAPITAL I WITH DOT ABOVE becomes
      'i' followed by COMBINING DOT ABOVE (its full lower-case mapping). */
  function LowerChar(c: char): string
  {
    if IsAsciiUpper(c) then [(c as int + 32) as char]
    else if c == '\U{212A}' then "k"
    else if c == '\U{0130}' then "i\U{0307}"
    else [c]
  }

  /** `s.lower()`: no ASCII capital is left, and the result is never
      shorter than the input (one character can expand to two). */
  function Lower(s: string): (r: string)
    ensures forall k :: 0 <= k < |r| ==> !IsAsciiUpper(r[k])
    ensures |r| >= |s|
  {
    if s == [] then [] else LowerChar(s[0]) + Lower(s[1..])
  }

  /** Lower-casing distributes over concatenation. */
  lemma {:induction false} LowerAppend(a: string, b: string)
    ensures Lower(a + b) == Lower(a) + Lower(b)
  {
    if a == [] {
      assert a + b == b;
    } else {
      assert (a + b)[1..] == a[1..] + b;
      LowerAppend(a[1..], b);
    }
  }

  /** Lower-casing twice is lower-casing once, so `url.lower()` on a URL cut
      from an already lower-cased text changes nothing. */
  lemma {:induction false} LowerIdempotent(s: string)
    ensures Lower(Lower(s)) == Lower(s)
  {
    if s != [] {
      var h := LowerChar(s[0]);
      LowerAppend(h, Lower(s[1..]));
      LowerCharFixed(s[0]);
      LowerIdempotent(s[1..]);
    }
  }

  lemma LowerCharFixed(c: char)
    ensures Lower(LowerChar(c)) == LowerChar(c)
  {
    var h := LowerChar(c);
    if |h| == 1 {
      assert Lower(h) == LowerChar(h[0]) + Lower([]);
    } else {
      assert h == "i\U{0307}";
      assert Lower(h) == LowerChar(h[0]) + Lower(h[1..]);
      assert Lower(h[1..]) == LowerChar(h[1]) + Lower([]);
    }
  }

  /** ASCII characters other than the capitals: `str.lower()` leaves them
      as they are. */
  predicate AsciiNonUpper(c: char)
  {
    c < 'A' || ('Z' < c && c <= '\U{007F}')
  }

  /** ASCII text without capitals is its own lower-case form. */
  lemma {:induction false} LowerFixed(s: string)
    requires forall k :: 0 <= k < |s| ==> AsciiNonUpper(s[k])
    ensures Lower(s) == s
  {
    if s != [] {
      LowerFixed(s[1..]);
      assert s == [s[0]] + s[1..];
    }
  }

  predicate IsPrefix(p: string, s: string)
  {
    |p| <= |s| && s[..|p|] == p
  }

  /** `pat` sits in `s` starting at index `i`. */
  predicate OccursAt(s: string, pat: string, i: int)
  {
    0 <= i && i + |pat| <= |s| && s[i..i + |pat|] == pat
  }

  /** Python's `pat in s` for strings, scanning from the left: true exactly
      when `pat` sits at some position of `s`, so true for the empty
      pattern. */
  function Contains(s: string, pat: string): (b: bool)
    ensures b <==> exists i :: OccursAt(s, pat, i)
    decreases |s|
  {
    var here := IsPrefix(pat, s);
    var later := |s| > 0 && Contains(s[1..], pat);
    ShiftOccurrences(s, pat);
    assert here ==> OccursAt(s, pat, 0);
    here || later
  }

  /** Occurrences in `s[1..]` are the occurrences in `s` past index 0,
      shifted by one. */
  lemma ShiftOccurrences(s: string, pat: string)
    ensures |s| > 0 ==> forall j :: 0 <= j ==> (OccursAt(s[1..], pat, j) <==> OccursAt(s, pat, j + 1))
    ensures forall i :: OccursAt(s, pat, i) && i != 0 ==> |s| > 0 && OccursAt(s[1..], pat, i - 1)
  {
    if |s| > 0 {
      forall j | 0 <= j && j + |pat| <= |s| - 1
        ensures OccursAt(s[1..], pat, j) <==> OccursAt(s, pat, j + 1)
      {
        ShiftedSlice(s, j, |pat|);
      }
    }
    forall i | OccursAt(s, pat, i) && i != 0
      ensures |s| > 0 && OccursAt(s[1..], pat, i - 1)
    {
      ShiftedSlice(s, i - 1, |pat|);
    }
  }

  lemma ShiftedSlice(s: string, j: nat, n: nat)
    requires j + n < |s|
    ensures s[1..][j..j + n] == s[j + 1..j + 1 + n]
  {
    var a, b := s[1..][j..j + n], s[j + 1..j + 1 + n];
    forall t | 0 <= t < n ensures a[t] == b[t] {
      assert a[t] == s[j + 1 + t];
    }
  }

  /** A witness position is enough to show containment. */
  lemma ContainsAt(s: string, pat: string, i: int)
    requires OccursAt(s, pat, i)
    ensures Contains(s, pat)
  {
  }

  /** An occurrence inside a known stretch of the text is an occurrence in
      the text. */
  lemma ContainsWithin(s: string, i: nat, piece: string, pat: string, j: nat)
    requires i + |piece| <= |s| && s[i..i + |piece|] == piece
    requires OccursAt(piece, pat, j)
    ensures Contains(s, pat)
  {
    forall t | 0 <= t < |pat| ensures s[i + j + t] == pat[t] {
      assert s[i + j + t] == s[i..i + |piece|][j + t];
      assert pat[t] == piece[j..j + |pat|][t];
    }
    assert s[i + j..i + j + |pat|] == pat;
    ContainsAt(s, pat, i + j);
  }

  /** A pattern holding a character the text lacks does not occur in it. */
  lemma MissingCharNotContained(s: string, pat: string, c: char)
    requires c in pat && c !in s
    ensures !Contains(s, pat)
  {
  }

  /** Number of occurrences of `c` in `s`. */
  function Count(s: string, c: char): nat
  {
    if s == [] then 0 else (if s[0] == c then 1 else 0) + Count(s[1..], c)
  }

  /** A character occurs exactly when its count is positive. */
  lemma {:induction false} CountPositive(s: string, c: char)
    ensures Count(s, c) > 0 <==> c in s
  {
    if s != [] {
      CountPositive(s[1..], c);
      assert s == [s[0]] + s[1..];
    }
  }

  /** `s.split(sep)` for a one-character separator: never an empty list,
      one piece more than there are separators, and no piece holds the
      separator. */
  function Split(s: string, sep: char): (r: seq<string>)
    ensures |r| == Count(s, sep) + 1
    ensures forall k :: 0 <= k < |r| ==> sep !in r[k]
  {
    if s == [] then [""]
    else
      var rest := Split(s[1..], sep);
      if s[0] == sep then [""] + rest
      else [[s[0]] + rest[0]] + rest[1..]
  }

  /** `sep.join(parts)`. */
  function Join(parts: seq<string>, sep: char): string
  {
    if parts == [] then ""
    else if |parts| == 1 then parts[0]
    else parts[0] + [sep] + Join(parts[1..], sep)
  }

  /** Joining the pieces of a split gives back the original string. */
  lemma {:induction false} JoinSplit(s: string, sep: char)
    ensures Join(Split(s, sep), sep) == s
  {
    if s != [] {
      var rest := Split(s[1..], sep);
      JoinSplit(s[1..], sep);
      if s[0] == sep {
        assert Split(s, sep)[1..] == rest;
      } else {
        var r := Split(s, sep);
        assert r[1..] == rest[1..];
        if |rest| == 1 {
          assert r == [[s[0]] + rest[0]];
        } else {
          assert Join(rest, sep) == rest[0] + [sep] + Join(rest[1..], sep);
          assert Join(r, sep) == [s[0]] + rest[0] + [sep] + Join(rest[1..], sep);
        }
        assert s == [s[0]] + s[1..];
      }
    }
  }

  /** `s.split(sep)[-1]`: the longest suffix of `s` free of `sep`. It is the
      whole of `s` when `sep` does not occur, and otherwise what follows the
      last `sep`. */
  function LastPiece(s: string, sep: char): (r: string)
    ensures sep !in r
    ensures |r| <= |s| && s[|s| - |r|..] == r
    ensures |r| < |s| ==> s[|s| - |r| - 1] == sep
    ensures sep !in s ==> r == s
  {
    var parts := Split(s, sep);
    SplitLast(s, sep);
    parts[|parts| - 1]
  }

  lemma {:induction false} SplitLast(s: string, sep: char)
    ensures var parts := Split(s, sep);
            var r := parts[|parts| - 1];
            |r| <= |s| && s[|s| - |r|..] == r &&
            (|r| < |s| ==> s[|s| - |r| - 1] == sep) &&
            (|parts| > 1 ==> |r| < |s|)
  {
    if s != [] {
      SplitLast(s[1..], sep);
      var rest := Split(s[1..], sep);
      var parts := Split(s, sep);
      var t := s[1..];
      assert s[|s| - |t|..] == t;
      if |rest| == 1 {
        JoinSplit(t, sep);
        assert rest[0] == t;
        if s[0] != sep {
          assert parts[|parts| - 1] == [s[0]] + rest[0];
          assert s == [s[0]] + t;
        }
      } else {
        assert parts[|parts| - 1] == rest[|rest| - 1];
      }
    }
  }

}
