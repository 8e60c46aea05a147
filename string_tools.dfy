/**
 * The PHP string built-ins the interactive shell relies on (explode, implode,
 * strpos, str_replace, trim), and the assumed behaviour of `commonPart`.
 */
module StringTools {

  predicate IsPrefix(p: string, s: string)
  {
    |p| <= |s| && s[..|p|] == p
  }

  /** `explode(sep, s)`: the pieces of `s` between occurrences of `sep`. */
  function Split(s: string, sep: char): (r: seq<string>)
    ensures |r| >= 1
    ensures (|r| == 1) == (sep !in s)
    ensures forall i :: 0 <= i < |r| ==> sep !in r[i]
    decreases |s|
  {
    if s == [] then [""]
    else
      var rest := Split(s[1..], sep);
      if s[0] == sep then [""] + rest
      else [[s[0]] + rest[0]] + rest[1..]
  }

  /** `implode(sep, parts)`. */
  function Join(parts: seq<string>, sep: char): string
  {
    if parts == [] then ""
    else if |parts| == 1 then parts[0]
    else parts[0] + [sep] + Join(parts[1..], sep)
  }

  /** Joining the pieces of `explode` gives back the original string. */
  lemma {:induction false} JoinSplit(s: string, sep: char)
    ensures Join(Split(s, sep), sep) == s
    decreases |s|
  {
    if s != [] {
      var rest := Split(s[1..], sep);
      JoinSplit(s[1..], sep);
      if s[0] != sep {
        var r := Split(s, sep);
        assert r == [[s[0]] + rest[0]] + rest[1..];
        if |rest| == 1 {
          assert Join(r, sep) == [s[0]] + rest[0];
        } else {
          assert r[1..] == rest[1..];
          assert Join(r, sep) == [s[0]] + (rest[0] + [sep] + Join(rest[1..], sep));
        }
      }
    }
  }

  /** A piece free of the separator is its own single piece. */
  lemma {:induction false} SplitPlain(p: string, sep: char)
    requires sep !in p
    ensures Split(p, sep) == [p]
    decreases |p|
  {
    if p != [] {
      SplitPlain(p[1..], sep);
      assert [p[0]] + p[1..] == p;
    }
  }

  /** A separator-free first piece splits off on its own. */
  lemma {:induction false} SplitAfter(p: string, sep: char, t: string)
    requires sep !in p
    ensures Split(p + [sep] + t, sep) == [p] + Split(t, sep)
    decreases |p|
  {
    if p == [] {
      assert p + [sep] + t == [sep] + t;
      assert ([sep] + t)[1..] == t;
    } else {
      SplitAfter(p[1..], sep, t);
      assert (p + [sep] + t)[1..] == p[1..] + [sep] + t;
      assert [p[0]] + p[1..] == p;
    }
  }

  /** Splitting a string that starts with a separator-free piece up to a separator (or the end) yields that piece first. */
  lemma {:induction false} SplitHead(p: string, sep: char, t: string)
    requires sep !in p
    requires t == [] || t[0] == sep
    ensures Split(p + t, sep)[0] == p
  {
    if t == [] {
      assert p + t == p;
      SplitPlain(p, sep);
    } else {
      assert p + t == p + [sep] + t[1..];
      SplitAfter(p, sep, t[1..]);
    }
  }

  /** `explode` undoes `implode` when no piece contains the separator. */
  lemma {:induction false} SplitJoin(parts: seq<string>, sep: char)
    requires |parts| >= 1
    requires forall i :: 0 <= i < |parts| ==> sep !in parts[i]
    ensures Split(Join(parts, sep), sep) == parts
  {
    if |parts| == 1 {
      SplitPlain(parts[0], sep);
    } else {
      SplitJoin(parts[1..], sep);
      SplitAfter(parts[0], sep, Join(parts[1..], sep));
      assert [parts[0]] + parts[1..] == parts;
    }
  }

  /** `strpos(haystack, needle) !== false`. */
  predicate Contains(haystack: string, needle: string)
    decreases |haystack|
  {
    IsPrefix(needle, haystack) || (haystack != [] && Contains(haystack[1..], needle))
  }

  /** Contains holds exactly when the needle occurs at some offset of the haystack. */
  lemma {:induction false} ContainsAt(haystack: string, needle: string)
    ensures Contains(haystack, needle) <==>
      exists i :: 0 <= i <= |haystack| && IsPrefix(needle, haystack[i..])
    decreases |haystack|
  {
    if IsPrefix(needle, haystack) {
      assert haystack[0..] == haystack;
    }
    if haystack != [] {
      ContainsAt(haystack[1..], needle);
      if exists i :: 0 <= i <= |haystack| && IsPrefix(needle, haystack[i..]) {
        var i :| 0 <= i <= |haystack| && IsPrefix(needle, haystack[i..]);
        if i > 0 {
          assert haystack[1..][i - 1..] == haystack[i..];
        }
      }
      if Contains(haystack[1..], needle) {
        var i :| 0 <= i <= |haystack[1..]| && IsPrefix(needle, haystack[1..][i..]);
        assert haystack[1..][i..] == haystack[i + 1..];
        assert IsPrefix(needle, haystack[i + 1..]);
      }
    }
  }

  /** `str_replace(from, to, s)` for single characters. */
  function Replace(s: string, from: char, to: char): (r: string)
    ensures |r| == |s|
    ensures forall i :: 0 <= i < |s| ==> r[i] == if s[i] == from then to else s[i]
  {
    if s == [] then [] else [if s[0] == from then to else s[0]] + Replace(s[1..], from, to)
  }

  /** `ltrim(s, c)`. */
  function TrimLeft(s: string, c: char): (r: string)
    ensures |r| <= |s|
    ensures r != [] ==> r[0] != c
    ensures (s == [] || s[0] != c) ==> r == s
    ensures r != [] ==> r[|r| - 1] == s[|s| - 1]
  {
    if s != [] && s[0] == c then TrimLeft(s[1..], c) else s
  }

  /** `rtrim(s, c)`. */
  function TrimRight(s: string, c: char): (r: string)
    ensures |r| <= |s|
    ensures r != [] ==> r[|r| - 1] != c
    ensures (s == [] || s[|s| - 1] != c) ==> r == s
    ensures r != [] ==> r[0] == s[0]
  {
    if s != [] && s[|s| - 1] == c then TrimRight(s[..|s| - 1], c) else s
  }

  /** `trim(s, c)`: `s` without the runs of `c` at both ends. */
  function Trim(s: string, c: char): (r: string)
    ensures |r| <= |s|
    ensures r != [] ==> r[0] != c && r[|r| - 1] != c
    ensures (s == [] || (s[0] != c && s[|s| - 1] != c)) ==> r == s
  {
    TrimRight(TrimLeft(s, c), c)
  }

  /** `ltrim` removes a run of `c` from the front and keeps the rest. */
  lemma {:induction false} TrimLeftSuffix(s: string, c: char)
    ensures var r := TrimLeft(s, c);
      r == s[|s| - |r|..] && forall k :: 0 <= k < |s| - |r| ==> s[k] == c
    decreases |s|
  {
    if s != [] && s[0] == c {
      TrimLeftSuffix(s[1..], c);
      var r := TrimLeft(s, c);
      assert s[1..][|s| - 1 - |r|..] == s[|s| - |r|..];
      forall k | 0 <= k < |s| - |r|
        ensures s[k] == c
      {
        if k > 0 {
          assert s[k] == s[1..][k - 1];
        }
      }
    }
  }

  /** `rtrim` removes a run of `c` from the back and keeps the rest. */
  lemma {:induction false} TrimRightPrefix(s: string, c: char)
    ensures var r := TrimRight(s, c);
      r == s[..|r|] && forall k :: |r| <= k < |s| ==> s[k] == c
    decreases |s|
  {
    if s != [] && s[|s| - 1] == c {
      var front := s[..|s| - 1];
      TrimRightPrefix(front, c);
      var r := TrimRight(s, c);
      assert front[..|r|] == s[..|r|];
      forall k | |r| <= k < |s|
        ensures s[k] == c
      {
        if k < |s| - 1 {
          assert s[k] == front[k];
        }
      }
    }
  }

  /** `trim` leaves a contiguous piece of `s`, and only `c` around it. */
  lemma TrimInfix(s: string, c: char)
    ensures var r := Trim(s, c);
      exists i :: 0 <= i <= |s| && IsPrefix(r, s[i..]) &&
        (forall k :: 0 <= k < i ==> s[k] == c) && (forall k :: i + |r| <= k < |s| ==> s[k] == c)
  {
    var left := TrimLeft(s, c);
    var r := Trim(s, c);
    TrimLeftSuffix(s, c);
    TrimRightPrefix(left, c);
    var i := |s| - |left|;
    assert r == left[..|r|];
    assert IsPrefix(r, s[i..]);
    forall k | i + |r| <= k < |s|
      ensures s[k] == c
    {
      assert s[k] == left[k - i];
    }
  }

  /**
   * `commonPart(a, b)` comes from a string-tools trait that is not part of this
   * model. This is its ASSUMED behaviour: the longest common prefix, character
   * by character.
   */
  function CommonPart(a: string, b: string): (r: string)
    ensures IsPrefix(r, a) && IsPrefix(r, b)
    ensures |r| == |a| || |r| == |b| || a[|r|] != b[|r|]
  {
    if a == [] || b == [] || a[0] != b[0] then "" else [a[0]] + CommonPart(a[1..], b[1..])
  }

  /** A string that is a prefix of the other is their whole common part. */
  lemma {:induction false} CommonPartOfPrefix(a: string, b: string)
    requires IsPrefix(a, b)
    ensures CommonPart(a, b) == a
  {
    if a != [] {
      assert IsPrefix(a[1..], b[1..]);
      CommonPartOfPrefix(a[1..], b[1..]);
      assert [a[0]] + a[1..] == a;
    }
  }
}
