/**
 * What `InteractiveShell::availableCommands` and `parseSubCommand` compute,
 * stated as functions: the stream of candidates each registered pattern
 * produces, and the duplicate-free list the shell offers for completion.
 *
 * A pattern is a '.'-separated string. A segment that starts with '?' is a
 * dynamic marker `?source_field` whose values the shell client enumerates;
 * any other segment stands for itself.
 */
module ShellExpander {
  import opened Wrappers
  import opened StringTools

  /** A marker body with no '_' leaves the field unset, a TypeError under strict types. */
  datatype ConfigError = MalformedMarker(segment: string)

  /** The client's `fillCommandList(source, field)`. */
  type Enumerator = (string, string) -> seq<string>

  predicate IsMarker(sub: string)
  {
    |sub| > 0 && sub[0] == '?'
  }

  /** The list a segment expands to: the enumerated values of a marker, or the segment itself. */
  function SubCommandValues(sub: string, enumerate: Enumerator): (r: Result<seq<string>, ConfigError>)
    ensures !IsMarker(sub) ==> r == Success([sub])
    ensures IsMarker(sub) ==> (r.Failure? <==> '_' !in sub[1..])
    ensures r.Failure? ==> r.error == MalformedMarker(sub)
  {
    if IsMarker(sub) then
      var parts := Split(sub[1..], '_');
      if |parts| < 2 then Failure(MalformedMarker(sub)) else Success(enumerate(parts[0], parts[1]))
    else
      Success([sub])
  }

  /** A marker `?source_field...` asks the client for (source, field); further '_' parts are ignored. */
  lemma MarkerAsksClient(source: string, field: string, tail: string, enumerate: Enumerator)
    requires '_' !in source && '_' !in field
    requires tail == [] || tail[0] == '_'
    ensures SubCommandValues("?" + source + "_" + field + tail, enumerate) == Success(enumerate(source, field))
  {
    var sub := "?" + source + "_" + field + tail;
    assert sub[1..] == source + ['_'] + (field + tail);
    SplitAfter(source, '_', field + tail);
    SplitHead(field, '_', tail);
  }

  /** One candidate: the root extended by a value, space separated unless the root is empty. */
  function Extend(root: string, value: string): string
  {
    if root == "" then value else root + " " + value
  }

  /** The inner loop of parseSubCommand: one value appended to every root, in root order. */
  function Row(value: string, roots: seq<string>): seq<string>
  {
    if roots == [] then [] else Row(value, roots[..|roots| - 1]) + [Extend(roots[|roots| - 1], value)]
  }

  /** The new root of parseSubCommand: values in the outer loop, roots in the inner loop. */
  function Product(values: seq<string>, roots: seq<string>): seq<string>
  {
    if values == [] then [] else Product(values[..|values| - 1], roots) + Row(values[|values| - 1], roots)
  }

  lemma {:induction false} RowAt(value: string, roots: seq<string>)
    ensures |Row(value, roots)| == |roots|
    ensures forall b :: 0 <= b < |roots| ==> Row(value, roots)[b] == Extend(roots[b], value)
  {
    if roots != [] {
      RowAt(value, roots[..|roots| - 1]);
    }
  }

  lemma {:induction false} ProductLength(values: seq<string>, roots: seq<string>)
    ensures |Product(values, roots)| == |values| * |roots|
  {
    if values != [] {
      var n := |values| - 1;
      ProductLength(values[..n], roots);
      RowAt(values[n], roots);
      assert |values| * |roots| == n * |roots| + |roots|;
    }
  }

  lemma {:induction false} ProductElement(values: seq<string>, roots: seq<string>, a: nat, b: nat)
    requires a < |values| && b < |roots|
    ensures a * |roots| + b < |Product(values, roots)|
    ensures Product(values, roots)[a * |roots| + b] == Extend(roots[b], values[a])
  {
    var n := |values| - 1;
    var m := |roots|;
    var front := values[..n];
    var idx := a * m + b;
    ProductLength(front, roots);
    RowAt(values[n], roots);
    assert Product(values, roots) == Product(front, roots) + Row(values[n], roots);
    if a < n {
      MulStep(a, n, m, b);
      ProductElement(front, roots, a, b);
    } else {
      assert idx == n * m + b;
    }
  }

  /** The product has |values| * |roots| entries; entry (a, b) extends root b by value a. */
  lemma {:induction false} ProductAt(values: seq<string>, roots: seq<string>)
    ensures |Product(values, roots)| == |values| * |roots|
    ensures forall a, b :: 0 <= a < |values| && 0 <= b < |roots| ==>
      a * |roots| + b < |Product(values, roots)| &&
      Product(values, roots)[a * |roots| + b] == Extend(roots[b], values[a])
  {
    ProductLength(values, roots);
    forall a, b | 0 <= a < |values| && 0 <= b < |roots|
      ensures a * |roots| + b < |Product(values, roots)| &&
        Product(values, roots)[a * |roots| + b] == Extend(roots[b], values[a])
    {
      ProductElement(values, roots, a, b);
    }
  }

  lemma MulStep(a: nat, n: nat, m: nat, b: nat)
    requires a < n && b < m
    ensures a * m + b < n * m
  {
    assert (a + 1) * m <= n * m by {
      assert n * m == (a + 1) * m + (n - a - 1) * m;
    }
  }

  /** `$commands[] = $x` guarded by `!in_array($x, $commands)`, for each x of xs in turn. */
  function AppendNew(acc: seq<string>, xs: seq<string>): seq<string>
  {
    if xs == [] then acc
    else
      var done := AppendNew(acc, xs[..|xs| - 1]);
      if xs[|xs| - 1] in done then done else done + [xs[|xs| - 1]]
  }

  /** The distinct entries of xs in the order they first occur. */
  function Dedup(xs: seq<string>): seq<string>
  {
    AppendNew([], xs)
  }

  predicate NoDuplicates(s: seq<string>)
  {
    forall i, j :: 0 <= i < j < |s| ==> s[i] != s[j]
  }

  /** Adding s and then t is adding s + t. */
  lemma {:induction false} AppendNewConcat(acc: seq<string>, s: seq<string>, t: seq<string>)
    ensures AppendNew(AppendNew(acc, s), t) == AppendNew(acc, s + t)
  {
    if t == [] {
      assert s + t == s;
    } else {
      var n := |t| - 1;
      AppendNewConcat(acc, s, t[..n]);
      assert (s + t)[..|s + t| - 1] == s + t[..n];
      assert (s + t)[|s + t| - 1] == t[n];
    }
  }

  lemma {:induction false} AppendNewMembers(acc: seq<string>, xs: seq<string>)
    ensures forall x :: x in AppendNew(acc, xs) <==> x in acc || x in xs
  {
    if xs != [] {
      var n := |xs| - 1;
      AppendNewMembers(acc, xs[..n]);
      assert xs == xs[..n] + [xs[n]];
    }
  }

  lemma {:induction false} AppendNewNoDuplicates(acc: seq<string>, xs: seq<string>)
    requires NoDuplicates(acc)
    ensures NoDuplicates(AppendNew(acc, xs))
  {
    if xs != [] {
      AppendNewNoDuplicates(acc, xs[..|xs| - 1]);
    }
  }

  /** Position of the first occurrence of x in xs. */
  function FirstIndex(xs: seq<string>, x: string): (i: nat)
    requires x in xs
    ensures i < |xs| && xs[i] == x
    ensures forall j :: 0 <= j < i ==> xs[j] != x
  {
    if xs[0] == x then 0 else 1 + FirstIndex(xs[1..], x)
  }

  lemma {:induction false} FirstIndexSnoc(xs: seq<string>, y: string, x: string)
    requires x in xs
    ensures FirstIndex(xs + [y], x) == FirstIndex(xs, x)
  {
    if xs[0] != x {
      assert (xs + [y])[1..] == xs[1..] + [y];
      FirstIndexSnoc(xs[1..], y, x);
    }
  }

  lemma {:induction false} FirstIndexNew(xs: seq<string>, x: string)
    requires x !in xs
    ensures FirstIndex(xs + [x], x) == |xs|
  {
    if xs != [] {
      assert (xs + [x])[1..] == xs[1..] + [x];
      FirstIndexNew(xs[1..], x);
    }
  }

  /**
   * Dedup keeps exactly the entries of xs, once each, ordered by where they
   * first occur in xs.
   */
  lemma {:induction false} DedupFirstOccurrenceOrder(xs: seq<string>)
    ensures NoDuplicates(Dedup(xs))
    ensures forall x :: x in Dedup(xs) <==> x in xs
    ensures forall i, j :: 0 <= i < j < |Dedup(xs)| ==>
      FirstIndex(xs, Dedup(xs)[i]) < FirstIndex(xs, Dedup(xs)[j])
  {
    AppendNewNoDuplicates([], xs);
    AppendNewMembers([], xs);
    if xs != [] {
      var n := |xs| - 1;
      var front := xs[..n];
      var y := xs[n];
      assert xs == front + [y];
      DedupFirstOccurrenceOrder(front);
      var d := Dedup(front);
      var r := Dedup(xs);
      forall i, j | 0 <= i < j < |r|
        ensures FirstIndex(xs, r[i]) < FirstIndex(xs, r[j])
      {
        if y in d {
          assert r == d;
          FirstIndexSnoc(front, y, r[i]);
          FirstIndexSnoc(front, y, r[j]);
        } else {
          assert r == d + [y];
          FirstIndexSnoc(front, y, r[i]);
          if j < |d| {
            FirstIndexSnoc(front, y, r[j]);
          } else {
            FirstIndexNew(front, y);
          }
        }
      }
    }
  }

  /** `$list` with `$root` prepended to the rest of a result; failures pass through. */
  function Prepend(s: seq<string>, rest: Result<seq<string>, ConfigError>): Result<seq<string>, ConfigError>
  {
    match rest
    case Failure(e) => Failure(e)
    case Success(t) => Success(s + t)
  }

  /** Sequential composition of two expansions: the first failure wins. */
  function Concat(r1: Result<seq<string>, ConfigError>, r2: Result<seq<string>, ConfigError>): Result<seq<string>, ConfigError>
  {
    match r1
    case Failure(e) => Failure(e)
    case Success(s) => Prepend(s, r2)
  }

  /** What the candidate list becomes when a stream of produced entries is added to it. */
  function Collect(acc: seq<string>, r: Result<seq<string>, ConfigError>): Result<seq<string>, ConfigError>
  {
    match r
    case Failure(e) => Failure(e)
    case Success(s) => Success(AppendNew(acc, s))
  }

  /**
   * The entries produced by the segment loop of availableCommands, from
   * segment i on, with `root` as the current root list. A segment equal to
   * the path segment at the same index is skipped; any other is expanded.
   */
  function ExpandSegments(segs: seq<string>, filter: seq<string>, i: nat, root: seq<string>, enumerate: Enumerator): Result<seq<string>, ConfigError>
    requires i <= |segs|
    decreases |segs| - i
  {
    if i == |segs| then Success([])
    else if i < |filter| && segs[i] == filter[i] then ExpandSegments(segs, filter, i + 1, root, enumerate)
    else
      match SubCommandValues(segs[i], enumerate)
      case Failure(e) => Failure(e)
      case Success(values) =>
        var next := Product(values, root);
        Prepend(next, ExpandSegments(segs, filter, i + 1, next, enumerate))
  }

  /** The entries one registered pattern produces for the given path. */
  function PatternStream(pattern: string, path: string, enumerate: Enumerator): Result<seq<string>, ConfigError>
  {
    if path != "" && !Contains(pattern, path) then Success([])
    else ExpandSegments(Split(pattern, '.'), Split(path, '.'), 0, [""], enumerate)
  }

  /** The entries all patterns produce, pattern after pattern. */
  function Stream(patterns: seq<string>, path: string, enumerate: Enumerator): Result<seq<string>, ConfigError>
  {
    if patterns == [] then Success([])
    else Concat(PatternStream(patterns[0], path, enumerate), Stream(patterns[1..], path, enumerate))
  }

  /** The completion list of availableCommands: the produced entries, each kept once. */
  function Available(patterns: seq<string>, path: string, enumerate: Enumerator): Result<seq<string>, ConfigError>
  {
    Collect([], Stream(patterns, path, enumerate))
  }

  /**
   * The completion list holds no duplicate, contains exactly the produced
   * entries, and orders them by first production across all patterns.
   */
  lemma AvailableIsFirstProducedOrder(patterns: seq<string>, path: string, enumerate: Enumerator)
    ensures Available(patterns, path, enumerate).Success? <==> Stream(patterns, path, enumerate).Success?
    ensures Available(patterns, path, enumerate).Success? ==>
      var r := Available(patterns, path, enumerate).value;
      var s := Stream(patterns, path, enumerate).value;
      && NoDuplicates(r)
      && (forall x :: x in r <==> x in s)
      && (forall i, j :: 0 <= i < j < |r| ==> FirstIndex(s, r[i]) < FirstIndex(s, r[j]))
  {
    if Stream(patterns, path, enumerate).Success? {
      DedupFirstOccurrenceOrder(Stream(patterns, path, enumerate).value);
    }
  }

  /** An entry produced by the patterns comes from one pattern that passes the substring filter. */
  lemma {:induction false} StreamOrigin(patterns: seq<string>, path: string, enumerate: Enumerator)
    requires Stream(patterns, path, enumerate).Success?
    ensures forall x :: x in Stream(patterns, path, enumerate).value <==>
      exists k :: 0 <= k < |patterns| && PatternStream(patterns[k], path, enumerate).Success? &&
        x in PatternStream(patterns[k], path, enumerate).value
    ensures forall k :: 0 <= k < |patterns| ==> PatternStream(patterns[k], path, enumerate).Success?
  {
    if patterns != [] {
      var head := PatternStream(patterns[0], path, enumerate);
      var tail := patterns[1..];
      StreamOrigin(tail, path, enumerate);
      forall x ensures x in Stream(patterns, path, enumerate).value <==>
        exists k :: 0 <= k < |patterns| && PatternStream(patterns[k], path, enumerate).Success? &&
          x in PatternStream(patterns[k], path, enumerate).value
      {
        if x in Stream(tail, path, enumerate).value {
          var k :| 0 <= k < |tail| && PatternStream(tail[k], path, enumerate).Success? &&
            x in PatternStream(tail[k], path, enumerate).value;
          assert tail[k] == patterns[k + 1];
        }
        if exists k :: (0 <= k < |patterns| && PatternStream(patterns[k], path, enumerate).Success? &&
          x in PatternStream(patterns[k], path, enumerate).value)
        {
          var k :| 0 <= k < |patterns| && PatternStream(patterns[k], path, enumerate).Success? &&
            x in PatternStream(patterns[k], path, enumerate).value;
          if k > 0 {
            assert patterns[k] == tail[k - 1];
          }
        }
      }
      forall k | 0 <= k < |patterns| ensures PatternStream(patterns[k], path, enumerate).Success? {
        if k > 0 {
          assert patterns[k] == tail[k - 1];
        }
      }
    }
  }

  /**
   * With a non-empty path, every offered candidate comes from a pattern that
   * contains the path as a substring.
   */
  lemma AvailableFromMatchingPatterns(patterns: seq<string>, path: string, enumerate: Enumerator, x: string)
    requires Available(patterns, path, enumerate).Success?
    requires x in Available(patterns, path, enumerate).value
    ensures exists k :: (0 <= k < |patterns| && (path == "" || Contains(patterns[k], path)) &&
      PatternStream(patterns[k], path, enumerate).Success? &&
      x in PatternStream(patterns[k], path, enumerate).value)
  {
    AvailableIsFirstProducedOrder(patterns, path, enumerate);
    StreamOrigin(patterns, path, enumerate);
    var k :| 0 <= k < |patterns| && PatternStream(patterns[k], path, enumerate).Success? &&
      x in PatternStream(patterns[k], path, enumerate).value;
    assert path == "" || Contains(patterns[k], path);
  }

  /** The segments the loop expands: those not equal to the path segment at the same index. */
  function Kept(segs: seq<string>, filter: seq<string>, i: nat): seq<string>
    requires i <= |segs|
    decreases |segs| - i
  {
    if i == |segs| then []
    else if i < |filter| && segs[i] == filter[i] then Kept(segs, filter, i + 1)
    else [segs[i]] + Kept(segs, filter, i + 1)
  }

  /** Expansion of a list of segments with nothing skipped. */
  function Expand(segs: seq<string>, root: seq<string>, enumerate: Enumerator): Result<seq<string>, ConfigError>
  {
    if segs == [] then Success([])
    else
      match SubCommandValues(segs[0], enumerate)
      case Failure(e) => Failure(e)
      case Success(values) =>
        var next := Product(values, root);
        Prepend(next, Expand(segs[1..], next, enumerate))
  }

  /**
   * A skipped segment leaves no trace: the roots carry over unchanged, so the
   * pattern expands as if only its kept segments were there.
   */
  lemma {:induction false} SkippedSegmentsVanish(segs: seq<string>, filter: seq<string>, i: nat, root: seq<string>, enumerate: Enumerator)
    requires i <= |segs|
    ensures ExpandSegments(segs, filter, i, root, enumerate) == Expand(Kept(segs, filter, i), root, enumerate)
    decreases |segs| - i
  {
    if i < |segs| {
      if i < |filter| && segs[i] == filter[i] {
        SkippedSegmentsVanish(segs, filter, i + 1, root, enumerate);
      } else {
        var k := Kept(segs, filter, i);
        assert k[0] == segs[i] && k[1..] == Kept(segs, filter, i + 1);
        match SubCommandValues(segs[i], enumerate)
        case Failure(e) =>
        case Success(values) =>
          SkippedSegmentsVanish(segs, filter, i + 1, Product(values, root), enumerate);
      }
    }
  }

  /** From a path segment on, nothing is skipped any more. */
  lemma {:induction false} KeptBeyondFilter(segs: seq<string>, filter: seq<string>, i: nat)
    requires |filter| <= i <= |segs|
    ensures Kept(segs, filter, i) == segs[i..]
    decreases |segs| - i
  {
    if i < |segs| {
      KeptBeyondFilter(segs, filter, i + 1);
      assert segs[i..] == [segs[i]] + segs[i + 1..];
    }
  }

  /** Each literal segment extends the single root by one word, offering every intermediate root. */
  function LiteralChain(root: string, segs: seq<string>): seq<string>
    decreases |segs|
  {
    if segs == [] then [] else [Extend(root, segs[0])] + LiteralChain(Extend(root, segs[0]), segs[1..])
  }

  lemma {:induction false} LiteralExpansion(segs: seq<string>, root: string, enumerate: Enumerator)
    requires forall k :: 0 <= k < |segs| ==> !IsMarker(segs[k])
    ensures Expand(segs, [root], enumerate) == Success(LiteralChain(root, segs))
  {
    if segs != [] {
      var next := Extend(root, segs[0]);
      assert Product([segs[0]], [root]) == [next] by {
        assert [segs[0]][..0] == [];
        assert [root][..0] == [];
        assert Row(segs[0], [root]) == Row(segs[0], []) + [next];
        assert Product([segs[0]], [root]) == Product([], [root]) + Row(segs[0], [root]);
      }
      LiteralExpansion(segs[1..], next, enumerate);
    }
  }

  /** The j-th entry of a literal chain is the root followed by the first j + 1 segments, space joined. */
  lemma {:induction false} LiteralChainAt(root: string, segs: seq<string>, j: nat)
    requires j < |segs|
    requires root != "" || segs[0] != ""
    ensures |LiteralChain(root, segs)| == |segs|
    ensures root != "" ==> LiteralChain(root, segs)[j] == root + " " + Join(segs[..j + 1], ' ')
    ensures root == "" ==> LiteralChain(root, segs)[j] == Join(segs[..j + 1], ' ')
    decreases j
  {
    LiteralChainLength(root, segs);
    var next := Extend(root, segs[0]);
    if j > 0 {
      assert next != "";
      LiteralChainAt(next, segs[1..], j - 1);
      assert segs[1..][..j] == segs[1..j + 1] == segs[..j + 1][1..];
      assert Join(segs[..j + 1], ' ') == segs[0] + " " + Join(segs[1..j + 1], ' ');
    } else {
      assert segs[..1] == [segs[0]];
    }
  }

  lemma {:induction false} LiteralChainLength(root: string, segs: seq<string>)
    ensures |LiteralChain(root, segs)| == |segs|
    decreases |segs|
  {
    if segs != [] {
      LiteralChainLength(Extend(root, segs[0]), segs[1..]);
    }
  }

  /** A pattern that passes the filter and expands only literal segments produces the literal chain of its kept segments. */
  lemma LiteralPatternStream(pattern: string, path: string, segs: seq<string>, filter: seq<string>, enumerate: Enumerator)
    requires Split(pattern, '.') == segs && Split(path, '.') == filter
    requires path == "" || Contains(pattern, path)
    requires forall k :: 0 <= k < |Kept(segs, filter, 0)| ==> !IsMarker(Kept(segs, filter, 0)[k])
    ensures PatternStream(pattern, path, enumerate) == Success(LiteralChain("", Kept(segs, filter, 0)))
  {
    SkippedSegmentsVanish(segs, filter, 0, [""], enumerate);
    LiteralExpansion(Kept(segs, filter, 0), "", enumerate);
  }

  /**
   * With an empty path, a pattern of literal segments whose first segment is
   * not empty produces exactly its space-joined prefixes, shortest first.
   */
  lemma LiteralPatternPrefixes(pattern: string, segs: seq<string>, enumerate: Enumerator)
    requires Split(pattern, '.') == segs
    requires segs[0] != ""
    requires forall k :: 0 <= k < |segs| ==> !IsMarker(segs[k])
    ensures PatternStream(pattern, "", enumerate).Success?
    ensures |PatternStream(pattern, "", enumerate).value| == |segs|
    ensures forall j :: 0 <= j < |segs| ==>
      PatternStream(pattern, "", enumerate).value[j] == Join(segs[..j + 1], ' ')
  {
    var filter := Split("", '.');
    assert filter == [""];
    assert Kept(segs, filter, 0) == segs by {
      KeptBeyondFilter(segs, filter, 1);
      assert segs == [segs[0]] + segs[1..];
    }
    LiteralPatternStream(pattern, "", segs, filter, enumerate);
    LiteralChainLength("", segs);
    forall j | 0 <= j < |segs|
      ensures LiteralChain("", segs)[j] == Join(segs[..j + 1], ' ')
    {
      LiteralChainAt("", segs, j);
    }
  }

  /** A pattern `a.b.c` of three literal words offers, under the empty path, "a", "a b" and "a b c". */
  lemma ThreeWordPattern(a: string, b: string, c: string, enumerate: Enumerator)
    requires '.' !in a && '.' !in b && '.' !in c
    requires a != "" && !IsMarker(a) && !IsMarker(b) && !IsMarker(c)
    ensures PatternStream(a + "." + b + "." + c, "", enumerate) == Success([a, a + " " + b, a + " " + b + " " + c])
  {
    var pattern := a + "." + b + "." + c;
    var segs := [a, b, c];
    SplitThree(a, b, c);
    assert Split("", '.') == [""];
    assert Kept(segs, [""], 0) == segs by {
      KeptBeyondFilter(segs, [""], 1);
      assert segs == [segs[0]] + segs[1..];
    }
    LiteralPatternStream(pattern, "", segs, [""], enumerate);
    ChainThree(a, b, c);
  }

  /** Three dot-free words joined by dots split back into the three words. */
  lemma SplitThree(a: string, b: string, c: string)
    requires '.' !in a && '.' !in b && '.' !in c
    ensures Split(a + "." + b + "." + c, '.') == [a, b, c]
  {
    assert a + "." + b + "." + c == a + ['.'] + (b + ['.'] + c);
    SplitAfter(a, '.', b + ['.'] + c);
    SplitAfter(b, '.', c);
    SplitPlain(c, '.');
  }

  /** The chain of three words from the empty path is the three growing prefixes. */
  lemma ChainThree(a: string, b: string, c: string)
    requires a != ""
    ensures LiteralChain("", [a, b, c]) == [a, a + " " + b, a + " " + b + " " + c]
  {
    var ab := a + " " + b;
    var abc := ab + " " + c;
    assert ab != "";
    assert [b, c][1..] == [c];
    assert LiteralChain(ab, [c]) == [abc];
    assert LiteralChain(a, [b, c]) == [ab] + LiteralChain(ab, [c]);
    assert LiteralChain("", [a, b, c]) == [a] + LiteralChain(a, [b, c]);
  }

  /**
   * Under path `u`, a pattern `u.a` offers only "a": the segment the path has
   * already consumed is not repeated.
   */
  lemma ConsumedSegment(u: string, a: string, enumerate: Enumerator)
    requires '.' !in u && '.' !in a && u != "" && !IsMarker(a)
    ensures PatternStream(u + "." + a, u, enumerate) == Success([a])
  {
    var pattern := u + "." + a;
    var segs := [u, a];
    assert Split(pattern, '.') == segs by {
      SplitAfter(u, '.', a);
      SplitPlain(a, '.');
    }
    assert Split(u, '.') == [u] by {
      SplitPlain(u, '.');
    }
    assert Contains(pattern, u) by {
      assert pattern[..|u|] == u;
    }
    assert Kept(segs, [u], 0) == [a] by {
      KeptBeyondFilter(segs, [u], 1);
      assert segs[1..] == [a];
    }
    LiteralPatternStream(pattern, u, segs, [u], enumerate);
    assert LiteralChain("", [a]) == [a];
  }
}
