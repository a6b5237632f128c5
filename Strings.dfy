/**
 * The string primitives the SOQL grammar is built from, each modelled on the
 * PHP or Laravel helper it stands for: `str_replace` with a one-character
 * needle, `strtolower`, `Str::contains`, `implode` and `trim`.
 * Strings are sequences of characters.
 */
module Strings {

  /** Number of occurrences of `c` in `s`. */
  function Count(s: string, c: char): (n: nat)
    ensures n <= |s|
    ensures n == 0 <==> c !in s
  {
    if s == [] then 0 else (if s[0] == c then 1 else 0) + Count(s[1..], c)
  }

  lemma {:induction false} CountAppend(a: string, b: string, c: char)
    ensures Count(a + b, c) == Count(a, c) + Count(b, c)
  {
    if a != [] {
      assert (a + b)[1..] == a[1..] + b;
      CountAppend(a[1..], b, c);
    } else {
      assert a + b == b;
    }
  }

  // ---------------------------------------------------------------------------
  // str_replace with a one-character needle
  // ---------------------------------------------------------------------------

  /**
   * `str_replace(c, rep, s)`: every occurrence of the character `c` is replaced
   * by `rep`, left to right; every other character is kept where it was.
   * Each `c` costs one character and brings in `|rep|`.
   */
  function Replace(s: string, c: char, rep: string): (r: string)
    ensures forall x :: x in r ==> x in rep || (x in s && x != c)
  {
    if s == [] then []
    else (if s[0] == c then rep else [s[0]]) + Replace(s[1..], c, rep)
  }

  /** Each occurrence of `c` costs one character and brings in `|rep|`. */
  lemma {:induction false} ReplaceLength(s: string, c: char, rep: string)
    ensures |Replace(s, c, rep)| + Count(s, c) == |s| + Count(s, c) * |rep|
  {
    if s != [] {
      ReplaceLength(s[1..], c, rep);
      var tail := Replace(s[1..], c, rep);
      if s[0] == c {
        assert Replace(s, c, rep) == rep + tail;
        MulSucc(Count(s[1..], c), |rep|);
      } else {
        assert Replace(s, c, rep) == [s[0]] + tail;
      }
    }
  }

  /** One step of distributing a product, kept apart so that `ReplaceLength` stays linear. */
  lemma MulSucc(n: nat, k: nat)
    ensures (n + 1) * k == n * k + k
  {
  }

  /** Replacing on one character: the needle becomes `rep`, any other character stays. */
  lemma ReplaceSingle(x: char, c: char, rep: string)
    ensures Replace([x], c, rep) == if x == c then rep else [x]
  {
    assert [x][1..] == [];
  }

  /**
   * Replacing distributes over concatenation. With `ReplaceSingle` this pins
   * `Replace` down: each needle becomes `rep` and every other character keeps
   * its position relative to its neighbours.
   */
  lemma {:induction false} ReplaceAppend(a: string, b: string, c: char, rep: string)
    ensures Replace(a + b, c, rep) == Replace(a, c, rep) + Replace(b, c, rep)
  {
    if a == [] {
      assert a + b == b;
    } else {
      assert (a + b)[0] == a[0] && (a + b)[1..] == a[1..] + b;
      ReplaceAppend(a[1..], b, c, rep);
    }
  }

  /** Replacing a character that does not occur changes nothing. */
  lemma {:induction false} ReplaceAbsent(s: string, c: char, rep: string)
    requires c !in s
    ensures Replace(s, c, rep) == s
  {
    if s != [] {
      ReplaceAbsent(s[1..], c, rep);
      assert s == [s[0]] + s[1..];
    }
  }

  /** When `rep` holds `c` exactly once, the number of `c`s is unchanged. */
  lemma {:induction false} ReplaceKeepsCount(s: string, c: char, rep: string)
    requires Count(rep, c) == 1
    ensures Count(Replace(s, c, rep), c) == Count(s, c)
  {
    if s != [] {
      var head := if s[0] == c then rep else [s[0]];
      assert Count(head, c) == (if s[0] == c then 1 else 0) by {
        if s[0] != c { assert head[1..] == []; }
      }
      CountAppend(head, Replace(s[1..], c, rep), c);
      ReplaceKeepsCount(s[1..], c, rep);
    }
  }

  // ---------------------------------------------------------------------------
  // Subsequences, the reference for what deleting a character keeps
  // ---------------------------------------------------------------------------

  /** `t` can be obtained from `s` by deleting characters, order kept. */
  predicate IsSubsequence(t: string, s: string)
    decreases |s|
  {
    t == [] || (s != [] && (if t[0] == s[0] then IsSubsequence(t[1..], s[1..]) else IsSubsequence(t, s[1..])))
  }

  /** Deleting every `c` leaves a subsequence of the input. */
  lemma {:induction false} EraseIsSubsequence(s: string, c: char)
    ensures IsSubsequence(Replace(s, c, ""), s)
  {
    if s != [] {
      EraseIsSubsequence(s[1..], c);
      var r := Replace(s, c, "");
      if s[0] == c {
        assert r == Replace(s[1..], c, "");
        if r != [] {
          assert r[0] in r;
        }
      } else {
        assert r == [s[0]] + Replace(s[1..], c, "");
        assert r[1..] == Replace(s[1..], c, "");
      }
    }
  }

  /** A subsequence of `s` that avoids `c` is at most as long as `s` without its `c`s. */
  lemma {:induction false} SubsequenceAvoidingBound(t: string, s: string, c: char)
    requires IsSubsequence(t, s) && c !in t
    ensures |t| <= |s| - Count(s, c)
    decreases |s|
  {
    if t != [] {
      if t[0] == s[0] {
        assert c !in t[1..] by { assert forall x :: x in t[1..] ==> x in t; }
        SubsequenceAvoidingBound(t[1..], s[1..], c);
      } else {
        SubsequenceAvoidingBound(t, s[1..], c);
      }
    }
  }

  /**
   * Deleting every `c` is the only way to get a subsequence of `s` that avoids
   * `c` and drops nothing else: any such `t` equals `Replace(s, c, "")`.
   */
  lemma {:induction false} EraseUnique(t: string, s: string, c: char)
    requires IsSubsequence(t, s) && c !in t && |t| == |s| - Count(s, c)
    ensures t == Replace(s, c, "")
    decreases |s|
  {
    if s == [] {
    } else if s[0] == c {
      if t != [] {
        assert t[0] != c;
        assert IsSubsequence(t, s[1..]);
      }
      EraseUnique(t, s[1..], c);
    } else if t != [] && t[0] == s[0] {
      assert c !in t[1..] by { assert forall x :: x in t[1..] ==> x in t; }
      EraseUnique(t[1..], s[1..], c);
      assert t == [t[0]] + t[1..];
    } else {
      if t != [] {
        SubsequenceAvoidingBound(t, s[1..], c);
      }
      assert false;
    }
  }

  // ---------------------------------------------------------------------------
  // strtolower and Str::contains
  // ---------------------------------------------------------------------------

  predicate IsUpper(ch: char) { 'A' <= ch <= 'Z' }

  /** `strtolower` on one character: ASCII letters only, as PHP 8.2 and later do. */
  function LowerChar(ch: char): (r: char)
    ensures !IsUpper(r)
    ensures IsUpper(ch) ==> r as int == ch as int + 32
    ensures !IsUpper(ch) ==> r == ch
  {
    if IsUpper(ch) then (ch as int - 'A' as int + 'a' as int) as char else ch
  }

  /** `strtolower` on a string. */
  function Lower(s: string): (r: string)
    ensures |r| == |s|
    ensures forall i :: 0 <= i < |s| ==> r[i] == LowerChar(s[i])
    ensures forall x :: x in r ==> !IsUpper(x)
  {
    if s == [] then [] else [LowerChar(s[0])] + Lower(s[1..])
  }

  /** Lower-casing works piece by piece. */
  lemma {:induction false} LowerAppend(a: string, b: string)
    ensures Lower(a + b) == Lower(a) + Lower(b)
  {
    if a == [] {
      assert a + b == b;
    } else {
      assert (a + b)[0] == a[0] && (a + b)[1..] == a[1..] + b;
      LowerAppend(a[1..], b);
    }
  }

  /** Lower-casing twice is lower-casing once. */
  lemma LowerIdempotent(s: string)
    ensures Lower(Lower(s)) == Lower(s)
  {
  }

  /**
   * `Str::contains(haystack, needle)`: the needle is non-empty and occurs at
   * some position of the haystack.
   */
  predicate Contains(haystack: string, needle: string)
    ensures Contains(haystack, needle) ==> needle != [] && |needle| <= |haystack|
  {
    needle != [] && exists i :: 0 <= i <= |haystack| && OccursAt(haystack, needle, i)
  }

  /** A non-empty needle found in a string is found in any string that extends it on either side. */
  lemma ContainsExtended(haystack: string, needle: string, before: string, after: string)
    requires Contains(haystack, needle)
    ensures Contains(before + haystack + after, needle)
  {
    var i :| 0 <= i <= |haystack| && OccursAt(haystack, needle, i);
    var h := before + haystack + after;
    assert h[|before| + i..|before| + i + |needle|] == haystack[i..i + |needle|];
    assert OccursAt(h, needle, |before| + i);
  }

  /** `needle` is found in `haystack` starting at position `i`. */
  predicate OccursAt(haystack: string, needle: string, i: nat)
  {
    i + |needle| <= |haystack| && haystack[i..i + |needle|] == needle
  }

  // ---------------------------------------------------------------------------
  // implode
  // ---------------------------------------------------------------------------

  /** Sum of the lengths of the pieces. */
  function TotalLength(xs: seq<string>): nat
  {
    if xs == [] then 0 else |xs[0]| + TotalLength(xs[1..])
  }

  /**
   * `implode(sep, xs)`: the pieces in order, with `sep` between each two
   * neighbours and nowhere else.
   */
  function Join(sep: string, xs: seq<string>): string
  {
    if xs == [] then []
    else if |xs| == 1 then xs[0]
    else xs[0] + sep + Join(sep, xs[1..])
  }

  /**
   * No pieces join to the empty string and a lone piece to itself. With
   * `JoinConcat` this fixes `Join` on every list of pieces.
   */
  lemma JoinSingleton(sep: string, x: string)
    ensures Join(sep, []) == []
    ensures Join(sep, [x]) == x
  {
  }

  /** The joined string is the pieces plus one separator per gap between them. */
  lemma {:induction false} JoinLength(sep: string, xs: seq<string>)
    ensures |Join(sep, xs)| == TotalLength(xs) + (if xs == [] then 0 else (|xs| - 1) * |sep|)
  {
    if |xs| > 1 {
      JoinLength(sep, xs[1..]);
      calc {
        |Join(sep, xs)|;
        |xs[0]| + |sep| + |Join(sep, xs[1..])|;
        |xs[0]| + |sep| + TotalLength(xs[1..]) + (|xs| - 2) * |sep|;
        { assert |sep| + (|xs| - 2) * |sep| == (|xs| - 1) * |sep|; }
        TotalLength(xs) + (|xs| - 1) * |sep|;
      }
    }
  }

  /** Joining a concatenation: the two joins with one more separator between them. */
  lemma {:induction false} JoinConcat(sep: string, xs: seq<string>, ys: seq<string>)
    requires xs != [] && ys != []
    ensures Join(sep, xs + ys) == Join(sep, xs) + sep + Join(sep, ys)
  {
    var zs := xs + ys;
    assert zs[0] == xs[0] && |zs| > 1;
    if |xs| == 1 {
      assert zs[1..] == ys;
      assert Join(sep, zs) == xs[0] + sep + Join(sep, ys);
    } else {
      assert zs[1..] == xs[1..] + ys;
      JoinConcat(sep, xs[1..], ys);
      calc {
        Join(sep, zs);
        xs[0] + sep + Join(sep, xs[1..] + ys);
        xs[0] + sep + (Join(sep, xs[1..]) + sep + Join(sep, ys));
        (xs[0] + sep + Join(sep, xs[1..])) + sep + Join(sep, ys);
      }
    }
  }

  // ---------------------------------------------------------------------------
  // trim
  // ---------------------------------------------------------------------------

  /** The characters PHP's `trim` strips by default: " \t\n\r\0\x0B". */
  predicate IsTrimChar(ch: char)
  {
    ch == ' ' || ch == '\t' || ch == '\n' || ch == '\r' || ch == '\0' || ch == '\U{000B}'
  }

  /** Every character of `s` in the range `[lo, hi)` is a trim character. */
  predicate AllTrim(s: string, lo: int, hi: int)
    requires 0 <= lo <= hi <= |s|
  {
    forall k :: lo <= k < hi ==> IsTrimChar(s[k])
  }

  /** Strips trim characters from the front: what is left is a suffix of `s`. */
  function TrimStart(s: string): (r: string)
    ensures |r| <= |s| && r == s[|s| - |r|..]
    ensures AllTrim(s, 0, |s| - |r|)
    ensures r != [] ==> !IsTrimChar(r[0])
  {
    if s != [] && IsTrimChar(s[0]) then TrimStart(s[1..]) else s
  }

  /** Strips trim characters from the back: what is left is a prefix of `s`. */
  function TrimEnd(s: string): (r: string)
    ensures |r| <= |s| && r == s[..|r|]
    ensures AllTrim(s, |r|, |s|)
    ensures r != [] ==> !IsTrimChar(r[|r| - 1])
  {
    if s != [] && IsTrimChar(s[|s| - 1]) then TrimEnd(s[..|s| - 1]) else s
  }

  /** A range of trim characters in a suffix `s[i..]` is one in `s`, shifted by `i`. */
  lemma AllTrimInSuffix(s: string, i: nat, lo: nat, hi: nat)
    requires i <= |s| && lo <= hi <= |s| - i && AllTrim(s[i..], lo, hi)
    ensures AllTrim(s, i + lo, i + hi)
  {
    forall k | i + lo <= k < i + hi ensures IsTrimChar(s[k]) {
      assert s[k] == s[i..][k - i];
    }
  }

  /** `r` is `s[i..j]`, and everything of `s` outside that window is a trim character. */
  predicate TrimmedWindow(s: string, r: string, i: int, j: int)
  {
    0 <= i <= j <= |s| && r == s[i..j] && AllTrim(s, 0, i) && AllTrim(s, j, |s|)
  }

  /**
   * PHP's `trim`. The result neither starts nor ends with a trim character, and
   * a string that already starts and ends with other characters is returned
   * unchanged. `TrimIsWindow` says what else is dropped: trim characters only.
   */
  function Trim(s: string): (r: string)
    ensures r != [] ==> !IsTrimChar(r[0]) && !IsTrimChar(r[|r| - 1])
    ensures s != [] && !IsTrimChar(s[0]) && !IsTrimChar(s[|s| - 1]) ==> r == s
  {
    TrimEnd(TrimStart(s))
  }

  /**
   * `trim` keeps a window of `s` and drops only trim characters around it: the
   * window starts after the leading run of trim characters.
   */
  lemma TrimIsWindow(s: string)
    ensures var i := |s| - |TrimStart(s)|; TrimmedWindow(s, Trim(s), i, i + |Trim(s)|)
  {
    TrimKeepsSlice(s);
    TrimDropsTail(s);
  }

  /** What `trim` keeps is the slice of `s` after the leading trim characters. */
  lemma TrimKeepsSlice(s: string)
    ensures var i := |s| - |TrimStart(s)|; i + |Trim(s)| <= |s| && Trim(s) == s[i..i + |Trim(s)|]
  {
  }

  /** What `trim` drops after the kept slice is trim characters only. */
  lemma TrimDropsTail(s: string)
    ensures var i := |s| - |TrimStart(s)|; i + |Trim(s)| <= |s| && AllTrim(s, i + |Trim(s)|, |s|)
  {
    var front := TrimStart(s);
    var i := |s| - |front|;
    assert front == s[i..];
    AllTrimInSuffix(s, i, |TrimEnd(front)|, |front|);
  }
}
