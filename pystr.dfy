/** The Python string built-ins the application relies on: `str.strip()`,
    `str.split(sep)` with `[-1]`, `str.lower()` and `"".join(...)`. */
module PyStr {

  // ---------- whitespace and strip() ----------

  /** Python's `str.isspace()` for one character: the code points that
      `str.strip()` with no argument removes. */
  predicate IsSpace(c: char)
  {
    var n := c as int;
    (0x09 <= n <= 0x0D) || (0x1C <= n <= 0x20) || n == 0x85 || n == 0xA0 ||
    n == 0x1680 || (0x2000 <= n <= 0x200A) || n == 0x2028 || n == 0x2029 ||
    n == 0x202F || n == 0x205F || n == 0x3000
  }

  /** Among ASCII characters, whitespace is the space, tab, line feed,
      vertical tab, form feed, carriage return and the four information
      separators `\x1c`-`\x1f`; no character past U+3000 is whitespace. */
  lemma SpaceCharacters(c: char)
    ensures c as int < 0x80 ==> (IsSpace(c) <==> c in {' ', '\t', '\n', '\r', '\U{B}', '\U{C}', '\U{1C}', '\U{1D}', '\U{1E}', '\U{1F}'})
    ensures IsSpace(c) ==> 0x09 <= c as int <= 0x3000
  {
  }

  predicate AllSpace(s: string)
  {
    forall k :: 0 <= k < |s| ==> IsSpace(s[k])
  }

  /** `s.lstrip()`: drops the leading whitespace, keeps a suffix of `s`. */
  function TrimStart(s: string): (r: string)
    ensures |r| <= |s| && r == s[|s| - |r|..]
    ensures AllSpace(s[..|s| - |r|])
    ensures r == [] || !IsSpace(r[0])
  {
    if s != [] && IsSpace(s[0]) then
      var r := TrimStart(s[1..]);
      assert s[..|s| - |r|] == [s[0]] + s[1..][..|s| - 1 - |r|];
      r
    else s
  }

  /** `s.rstrip()`: drops the trailing whitespace, keeps a prefix of `s`. */
  function TrimEnd(s: string): (r: string)
    ensures |r| <= |s| && r == s[..|r|]
    ensures AllSpace(s[|r|..])
    ensures r == [] || !IsSpace(r[|r| - 1])
  {
    if s != [] && IsSpace(s[|s| - 1]) then
      var r := TrimEnd(s[..|s| - 1]);
      assert s[|r|..] == s[..|s| - 1][|r|..] + [s[|s| - 1]];
      r
    else s
  }

  /** `s.strip()`. The result is empty exactly when `s` is blank, and
      otherwise neither starts nor ends with whitespace. */
  function Strip(s: string): (r: string)
    ensures |r| <= |s|
    ensures r == [] || (!IsSpace(r[0]) && !IsSpace(r[|r| - 1]))
    ensures r == [] <==> AllSpace(s)
  {
    var t := TrimStart(s);
    var r := TrimEnd(t);
    assert r != [] ==> r[0] == t[0];
    assert t != [] ==> t[0] == s[|s| - |t|];
    assert r == [] ==> t[|r|..] == t;
    assert t == [] ==> s[..|s|] == s;
    r
  }

  /** The piece `s[i..j]` is what stripping `s` leaves: everything outside it
      is whitespace, and it is empty (the whole of `s` blank) or has a
      non-space character at each end. */
  ghost predicate IsStripOf(s: string, i: int, j: int)
  {
    0 <= i <= j <= |s| && AllSpace(s[..i]) && AllSpace(s[j..]) &&
    (i < j ==> !IsSpace(s[i]) && !IsSpace(s[j - 1])) &&
    (i == j ==> AllSpace(s))
  }

  /** `Strip` agrees with the declarative description of stripping. */
  lemma StripUnique(s: string, i: int, j: int)
    requires IsStripOf(s, i, j)
    ensures Strip(s) == s[i..j]
  {
    if i < j {
      StripBetween(s, i, j);
    }
  }

  /** Stripping a string that is not blank: `lstrip()` then `rstrip()`
      stop at its first and last non-space characters. */
  lemma StripBetween(s: string, i: int, j: int)
    requires 0 <= i < j <= |s| && AllSpace(s[..i]) && AllSpace(s[j..])
    requires !IsSpace(s[i]) && !IsSpace(s[j - 1])
    ensures Strip(s) == s[i..j]
  {
    TrimStartAt(s, i);
    TrimEndAt(s, i, j);
  }

  /** `lstrip()` stops at the first non-space character. */
  lemma TrimStartAt(s: string, i: int)
    requires 0 <= i < |s| && AllSpace(s[..i]) && !IsSpace(s[i])
    ensures TrimStart(s) == s[i..]
  {
    var t := TrimStart(s);
    var k := |s| - |t|;
    SpaceBefore(s, k);
    SpaceBefore(s, i);
    assert k < |s| ==> t[0] == s[k];
    assert k == i;
  }

  /** `rstrip()` of the suffix from `i` stops after the last non-space
      character. */
  lemma TrimEndAt(s: string, i: int, j: int)
    requires 0 <= i < j <= |s| && AllSpace(s[j..]) && !IsSpace(s[j - 1])
    ensures TrimEnd(s[i..]) == s[i..j]
  {
    var t := s[i..];
    var m := j - i;
    var r := TrimEnd(t);
    SpaceFrom(s, j);
    SpaceFrom(t, |r|);
    assert forall x :: m <= x < |t| ==> t[x] == s[x + i];
    assert |r| > 0 ==> t[|r| - 1] == r[|r| - 1];
    assert t[m - 1] == s[j - 1];
    assert |r| == m;
    assert t[..m] == s[i..j];
  }

  lemma SpaceBefore(s: string, n: int)
    requires 0 <= n <= |s| && AllSpace(s[..n])
    ensures forall x :: 0 <= x < n ==> IsSpace(s[x])
  {
    forall x | 0 <= x < n ensures IsSpace(s[x]) {
      assert s[x] == s[..n][x];
    }
  }

  lemma SpaceFrom(s: string, n: int)
    requires 0 <= n <= |s| && AllSpace(s[n..])
    ensures forall x :: n <= x < |s| ==> IsSpace(s[x])
  {
    forall x | n <= x < |s| ensures IsSpace(s[x]) {
      assert s[x] == s[n..][x - n];
    }
  }

  /** Stripping twice is stripping once. */
  lemma StripIdempotent(s: string)
    ensures Strip(Strip(s)) == Strip(s)
  {
    var r := Strip(s);
    assert r[..0] == [] && r[|r|..] == [];
    StripUnique(r, 0, |r|);
    assert r[0..|r|] == r;
  }

  /** Whitespace around a core that starts and ends with a non-space
      character is exactly what `strip()` removes. */
  lemma StripPadded(pre: string, core: string, post: string)
    requires AllSpace(pre) && AllSpace(post)
    requires core != [] && !IsSpace(core[0]) && !IsSpace(core[|core| - 1])
    ensures Strip(pre + core + post) == core
  {
    var s := pre + core + post;
    var i, j := |pre|, |pre| + |core|;
    assert s[..i] == pre && s[j..] == post && s[i..j] == core;
    assert s[i] == core[0] && s[j - 1] == core[|core| - 1];
    StripUnique(s, i, j);
  }

  // ---------- split(sep) and the last piece ----------

  /** Python's `s.split(sep)` for a one-character separator: the maximal
      separator-free pieces, as many as there are separators plus one. */
  function Split(s: string, sep: char): (parts: seq<string>)
    ensures |parts| == Occurrences(s, sep) + 1
    ensures forall p :: p in parts ==> sep !in p
    decreases |s|
  {
    if s == [] then [[]]
    else
      var rest := Split(s[1..], sep);
      if s[0] == sep then [[]] + rest
      else
        assert rest[0] in rest;
        [[s[0]] + rest[0]] + rest[1..]
  }

  function Occurrences(s: string, c: char): nat
  {
    if s == [] then 0 else (if s[0] == c then 1 else 0) + Occurrences(s[1..], c)
  }

  /** Python's `sep.join(parts)`. */
  function Join(parts: seq<string>, sep: char): string
  {
    if parts == [] then []
    else if |parts| == 1 then parts[0]
    else parts[0] + [sep] + Join(parts[1..], sep)
  }

  /** Joining the pieces with the separator gives back the string. */
  lemma {:induction false} JoinSplit(s: string, sep: char)
    ensures Join(Split(s, sep), sep) == s
    decreases |s|
  {
    if s != [] {
      var rest := Split(s[1..], sep);
      JoinSplit(s[1..], sep);
      if s[0] == sep {
        assert Split(s, sep) == [[]] + rest;
        assert ([[]] + rest)[1..] == rest;
        assert s == [] + [sep] + s[1..];
      } else if |rest| == 1 {
        assert Split(s, sep) == [[s[0]] + rest[0]];
        assert s == [s[0]] + s[1..];
      } else {
        var parts := Split(s, sep);
        assert parts[1..] == rest[1..];
        assert Join(rest, sep) == rest[0] + [sep] + Join(rest[1..], sep);
        assert s == [s[0]] + s[1..];
      }
    }
  }

  /** Pieces that hold no separator. */
  ghost predicate SepFree(parts: seq<string>, sep: char)
  {
    forall p :: p in parts ==> sep !in p
  }

  /** Splitting pieces that hold no separator, joined by it, gives back the
      pieces. */
  lemma {:induction false} SplitJoin(parts: seq<string>, sep: char)
    requires parts != [] && SepFree(parts, sep)
    ensures Split(Join(parts, sep), sep) == parts
    decreases |parts|, |parts[0]|, 1
  {
    assert parts[0] in parts;
    if |parts| == 1 {
      SplitSepFree(parts[0], sep);
    } else if parts[0] == [] {
      SplitJoinEmptyFirst(parts, sep);
    } else {
      SplitJoinLongFirst(parts, sep);
    }
  }

  lemma {:induction false} SplitJoinEmptyFirst(parts: seq<string>, sep: char)
    requires |parts| > 1 && parts[0] == [] && SepFree(parts, sep)
    ensures Split(Join(parts, sep), sep) == parts
    decreases |parts|, 0, 0
  {
    var tail := parts[1..];
    assert SepFree(tail, sep) by {
      assert forall p :: p in tail ==> p in parts;
    }
    SplitJoin(tail, sep);
    assert Join(parts, sep) == [sep] + Join(tail, sep);
    SplitAfterSep(Join(tail, sep), sep);
    assert parts == [[]] + tail;
  }

  lemma {:induction false} SplitJoinLongFirst(parts: seq<string>, sep: char)
    requires |parts| > 1 && parts[0] != [] && SepFree(parts, sep)
    ensures Split(Join(parts, sep), sep) == parts
    decreases |parts|, |parts[0]|, 0
  {
    var p0 := parts[0];
    assert p0 in parts;
    var shorter := [p0[1..]] + parts[1..];
    assert SepFree(shorter, sep) by {
      NotInTail(p0, sep);
      assert forall p :: p in shorter ==> p == p0[1..] || p in parts;
    }
    SplitJoin(shorter, sep);
    var rest := Join(shorter, sep);
    assert Join(parts, sep) == [p0[0]] + rest by {
      assert Join(shorter, sep) == p0[1..] + [sep] + Join(parts[1..], sep);
      assert p0 == [p0[0]] + p0[1..];
    }
    SplitAfterOther(p0[0], rest, sep);
    assert [p0[0]] + p0[1..] == p0;
    assert parts == [p0] + shorter[1..];
  }

  lemma SplitAfterSep(s: string, sep: char)
    ensures Split([sep] + s, sep) == [[]] + Split(s, sep)
  {
    assert ([sep] + s)[1..] == s;
  }

  lemma SplitAfterOther(c: char, s: string, sep: char)
    requires c != sep
    ensures Split([c] + s, sep) == [[c] + Split(s, sep)[0]] + Split(s, sep)[1..]
  {
    assert ([c] + s)[1..] == s;
  }

  /** A separator-free string splits into itself alone. */
  lemma {:induction false} SplitSepFree(s: string, sep: char)
    requires sep !in s
    ensures Split(s, sep) == [s]
    decreases |s|
  {
    if s != [] {
      NotInTail(s, sep);
      SplitSepFree(s[1..], sep);
      assert s == [s[0]] + s[1..];
    }
  }

  lemma NotInTail(s: string, c: char)
    requires s != [] && c !in s
    ensures c !in s[1..]
  {
    assert forall k :: 0 <= k < |s| - 1 ==> s[1..][k] == s[k + 1];
  }

  /** The text after the last `sep` of `s`, or all of `s` when it holds no
      `sep`: the longest separator-free suffix, read from the right. */
  function AfterLast(s: string, sep: char): (r: string)
    ensures |r| <= |s| && r == s[|s| - |r|..]
    ensures sep !in r
    ensures |r| < |s| ==> s[|s| - |r| - 1] == sep
  {
    if s == [] || s[|s| - 1] == sep then []
    else
      var r := AfterLast(s[..|s| - 1], sep);
      assert s[..|s| - 1][|s| - 1 - |r|..] + [s[|s| - 1]] == s[|s| - 1 - |r|..];
      r + [s[|s| - 1]]
  }

  function Last(parts: seq<string>): string
    requires parts != []
  {
    parts[|parts| - 1]
  }

  /** Two separator-free suffixes of `s` that each reach back to a
      separator or to the start of `s` are the same suffix. */
  lemma SuffixAfterSepUnique(s: string, sep: char, a: string, b: string)
    requires |a| <= |s| && a == s[|s| - |a|..] && sep !in a && (|a| < |s| ==> s[|s| - |a| - 1] == sep)
    requires |b| <= |s| && b == s[|s| - |b|..] && sep !in b && (|b| < |s| ==> s[|s| - |b| - 1] == sep)
    ensures a == b
  {
  }

  /** `s.split(sep)[-1]` is the text after the last `sep` (all of `s` when
      there is none). */
  lemma {:induction false} LastPieceIsAfterLast(s: string, sep: char)
    ensures Last(Split(s, sep)) == AfterLast(s, sep)
  {
    LastPieceIsSuffix(s, sep);
    SuffixAfterSepUnique(s, sep, Last(Split(s, sep)), AfterLast(s, sep));
  }

  lemma {:induction false} LastPieceIsSuffix(s: string, sep: char)
    ensures var r := Last(Split(s, sep));
      |r| <= |s| && r == s[|s| - |r|..] && sep !in r && (|r| < |s| ==> s[|s| - |r| - 1] == sep)
    decreases |s|
  {
    var parts := Split(s, sep);
    assert Last(parts) in parts;
    if s != [] {
      var rest := Split(s[1..], sep);
      LastPieceIsSuffix(s[1..], sep);
      var r' := Last(rest);
      if s[0] == sep {
        assert Last(parts) == r';
      } else if |rest| == 1 {
        JoinSplit(s[1..], sep);
        assert rest[0] == s[1..];
        assert Last(parts) == [s[0]] + s[1..] == s;
      } else {
        assert Last(parts) == r';
        if |r'| == |s| - 1 {
          assert r' == s[1..];
          SplitSepFree(s[1..], sep);
          assert false;
        }
      }
    }
  }

  // ---------- lower() ----------

  /** Lower-casing of the ASCII letters. */
  function LowerChar(c: char): char
  {
    if 'A' <= c <= 'Z' then (c as int + 32) as char else c
  }

  /** `s.lower()`, restricted to ASCII letters. */
  function Lower(s: string): (r: string)
    ensures |r| == |s|
    ensures forall k :: 0 <= k < |s| ==> r[k] == LowerChar(s[k])
  {
    if s == [] then [] else [LowerChar(s[0])] + Lower(s[1..])
  }

  // ---------- "".join(...) ----------

  /** `"".join(pieces)`: the pieces in order, with no separator. */
  function Concat(pieces: seq<string>): (r: string)
    ensures |r| == TotalLength(pieces)
  {
    if pieces == [] then [] else pieces[0] + Concat(pieces[1..])
  }

  function TotalLength(pieces: seq<string>): nat
  {
    if pieces == [] then 0 else |pieces[0]| + TotalLength(pieces[1..])
  }

  /** Joining two runs of pieces is joining each and concatenating. */
  lemma {:induction false} ConcatAppend(a: seq<string>, b: seq<string>)
    ensures Concat(a + b) == Concat(a) + Concat(b)
    decreases |a|
  {
    if a != [] {
      assert (a + b)[1..] == a[1..] + b;
      ConcatAppend(a[1..], b);
    } else {
      assert a + b == b;
    }
  }
}
