/**
 * The parts of Python's `posixpath` the thumbnail handler calls: `basename`, `dirname`,
 * `join`, `splitext` and `relpath`, on `/`-separated path strings.  `Components` is the
 * list of non-empty pieces between separators, the view of a path `relpath` works on.
 */
module PosixPath {
  import opened Wrappers

  const Sep := '/'

  /** `s.rfind(c)`: the last index holding `c`, or -1. */
  function RFind(s: string, c: char): (i: int)
    ensures -1 <= i < |s|
  {
    if s == [] then -1
    else if s[|s| - 1] == c then |s| - 1
    else RFind(s[..|s| - 1], c)
  }

  /** `s.rstrip('/')` */
  function RStripSlashes(s: string): (r: string)
    ensures |r| <= |s| && r == s[..|r|]
    ensures r == [] || r[|r| - 1] != Sep
  {
    if s != [] && s[|s| - 1] == Sep then RStripSlashes(s[..|s| - 1]) else s
  }

  /** `posixpath.basename` */
  function Basename(p: string): string {
    p[RFind(p, Sep) + 1..]
  }

  /**
   * `posixpath.dirname`: everything up to the last separator, with trailing separators
   * stripped unless that would leave nothing (the head is empty or only separators).
   */
  function Dirname(p: string): string {
    var head := p[..RFind(p, Sep) + 1];
    var stripped := RStripSlashes(head);
    if stripped == [] then head else stripped
  }

  /** `posixpath.join(a, b)` */
  function Join(a: string, b: string): string {
    if b != [] && b[0] == Sep then b
    else if a == [] || a[|a| - 1] == Sep then a + b
    else a + [Sep] + b
  }

  /** `posixpath.join(*parts)`, a left fold of `Join`. */
  function JoinAll(parts: seq<string>): (r: string)
    requires parts != []
    ensures parts[|parts| - 1] != [] ==> r != []
  {
    if |parts| == 1 then parts[0] else Join(JoinAll(parts[..|parts| - 1]), parts[|parts| - 1])
  }

  /** Some character of `s` is not a dot. */
  predicate HasNonDot(s: string) {
    s != [] && (s[0] != '.' || HasNonDot(s[1..]))
  }

  /**
   * `posixpath.splitext`: a split before the last dot of the final component, unless every
   * character of that component before the dot is a dot (so ".jpg" has no extension).
   */
  function SplitExt(p: string): (string, string) {
    var sepIndex := RFind(p, Sep);
    var dotIndex := RFind(p, '.');
    if dotIndex > sepIndex && HasNonDot(p[sepIndex + 1..dotIndex]) then (p[..dotIndex], p[dotIndex..])
    else (p, [])
  }

  /** A finished word of `split`, kept only when non-empty. */
  function Flush(word: string): seq<string> {
    if word == [] then [] else [word]
  }

  /** The non-empty words of `word + p`, split at each separator, scanning left to right. */
  function Words(p: string, word: string): seq<string>
    decreases |p|
  {
    if p == [] then Flush(word)
    else if p[0] == Sep then Flush(word) + Words(p[1..], [])
    else Words(p[1..], word + [p[0]])
  }

  /** `[x for x in p.split('/') if x]` */
  function Components(p: string): seq<string> {
    Words(p, [])
  }

  /** `len(os.path.commonprefix([a, b]))` for two lists. */
  function CommonPrefixLength(a: seq<string>, b: seq<string>): (n: nat)
    ensures n <= |a| && n <= |b|
  {
    if a != [] && b != [] && a[0] == b[0] then 1 + CommonPrefixLength(a[1..], b[1..]) else 0
  }

  function Repeat(s: string, n: nat): (r: seq<string>)
    ensures |r| == n && (n > 0 ==> r[n - 1] == s)
  {
    if n == 0 then [] else [s] + Repeat(s, n - 1)
  }

  /** The pieces `relpath` joins: a `..` for each component of `start` beyond the common prefix, then the rest of `path`. */
  function RelList(startList: seq<string>, pathList: seq<string>): (r: seq<string>)
    ensures pathList != [] && pathList[|pathList| - 1] != [] && r != [] ==> r[|r| - 1] != []
  {
    var i := CommonPrefixLength(startList, pathList);
    var r := Repeat("..", |startList| - i) + pathList[i..];
    assert r != [] && i < |pathList| ==> r[|r| - 1] == pathList[|pathList| - 1];
    r
  }

  /** `join(*rel_list)`, or `.` when the list is empty. */
  function JoinRelative(parts: seq<string>): string {
    if parts == [] then "." else JoinAll(parts)
  }

  /**
   * `posixpath.relpath(path, start)`; None is the ValueError an empty path raises.  The
   * `abspath` normalisation of both arguments is not part of this model: the components of
   * the arguments are used as given.
   */
  function RelPath(path: string, start: string): (r: Option<string>)
    ensures r.None? <==> path == []
    ensures r.Some? ==> r.value != []
  {
    if path == [] then None
    else
      ComponentsAreNames(path);
      Some(JoinRelative(RelList(Components(start), Components(path))))
  }

  predicate IsName(s: string) {
    s != [] && Sep !in s
  }

  // ---------------------------------------------------------------------------------------
  // rfind

  /** `rfind` finds `c`, and no later occurrence of it. */
  lemma {:induction false} RFindSpec(s: string, c: char)
    ensures var i := RFind(s, c); (i >= 0 ==> s[i] == c) && forall j :: i < j < |s| ==> s[j] != c
    decreases |s|
  {
    if s != [] && s[|s| - 1] != c {
      var s0 := s[..|s| - 1];
      RFindSpec(s0, c);
      assert forall j :: 0 <= j < |s0| ==> s0[j] == s[j];
    }
  }

  lemma {:induction false} RFindUnique(s: string, c: char, k: int)
    requires -1 <= k < |s| && (k >= 0 ==> s[k] == c)
    requires forall j :: k < j < |s| ==> s[j] != c
    ensures RFind(s, c) == k
  {
    RFindSpec(s, c);
  }

  lemma {:induction false} RFindConcat(x: string, y: string, c: char)
    ensures RFind(x + y, c) == if RFind(y, c) >= 0 then |x| + RFind(y, c) else RFind(x, c)
  {
    RFindSpec(x, c);
    RFindSpec(y, c);
    var s := x + y;
    var k := if RFind(y, c) >= 0 then |x| + RFind(y, c) else RFind(x, c);
    forall j | k < j < |s|
      ensures s[j] != c
    {
      if j >= |x| {
        assert s[j] == y[j - |x|];
      } else {
        assert s[j] == x[j];
      }
    }
    if k >= 0 {
      if RFind(y, c) >= 0 {
        assert s[k] == y[RFind(y, c)];
      } else {
        assert s[k] == x[k];
      }
    }
    RFindUnique(s, c, k);
  }

  lemma {:induction false} NoSeparator(b: string)
    requires Sep !in b
    ensures RFind(b, Sep) == -1
  {
    RFindSpec(b, Sep);
  }

  /** With no separator in `b`, the last separator of `a + "/" + b` is the one between them. */
  lemma {:induction false} LastSeparator(a: string, b: string)
    requires Sep !in b
    ensures RFind(a + [Sep] + b, Sep) == |a|
  {
    RFindConcat(a + [Sep], b, Sep);
    NoSeparator(b);
    RFindUnique(a + [Sep], Sep, |a|);
  }

  // ---------------------------------------------------------------------------------------
  // basename, dirname, join

  lemma {:induction false} BasenameHasNoSeparator(p: string)
    ensures Sep !in Basename(p)
  {
    var i := RFind(p, Sep);
    RFindSpec(p, Sep);
    var base := Basename(p);
    forall k | 0 <= k < |base|
      ensures base[k] != Sep
    {
      assert base[k] == p[i + 1 + k];
    }
  }

  /** The strings `dirname` returns: empty, only separators, or not ending in one. */
  predicate DirectoryShaped(d: string) {
    d == [] || RStripSlashes(d) == [] || d[|d| - 1] != Sep
  }

  lemma {:induction false} DirnameShape(p: string)
    ensures DirectoryShaped(Dirname(p))
  {
    var head := p[..RFind(p, Sep) + 1];
    var stripped := RStripSlashes(head);
    if stripped != [] {
      assert RStripSlashes(stripped) == stripped;
    }
  }

  /** Stripping a string that ends in a separator strips the string without it. */
  lemma {:induction false} RStripLastSlash(a: string)
    ensures RStripSlashes(a + [Sep]) == RStripSlashes(a)
  {
    assert (a + [Sep])[..|a|] == a;
  }

  /** The last component of `join(a, b)` is `b`, and what is before it is `a` (for `a` the kind of string `dirname` returns). */
  lemma {:induction false} JoinThenSplit(a: string, b: string)
    requires IsName(b) && DirectoryShaped(a)
    ensures Basename(Join(a, b)) == b
    ensures Dirname(Join(a, b)) == a
  {
    assert b[0] != Sep by { assert b[0] in b; }
    var j := Join(a, b);
    if a == [] {
      NoSeparator(b);
      assert j == b;
    } else if a[|a| - 1] == Sep {
      var a0 := a[..|a| - 1];
      assert a0 + [Sep] == a;
      assert j == a0 + [Sep] + b;
      LastSeparator(a0, b);
      assert j[..|a0| + 1] == a;
      assert j[|a0| + 1..] == b;
    } else {
      assert j == a + [Sep] + b;
      LastSeparator(a, b);
      assert j[..|a| + 1] == a + [Sep];
      assert j[|a| + 1..] == b;
      RStripLastSlash(a);
      assert RStripSlashes(a) == a;
    }
  }

  lemma {:induction false} JoinOntoEmpty(b: string)
    requires b == [] || b[0] != Sep
    ensures Join([], b) == b
  {
  }

  lemma {:induction false} JoinKeepsHead(a: string, b: string)
    requires a != [] && (b == [] || b[0] != Sep)
    ensures Join(a, b) != [] && Join(a, b)[0] == a[0]
  {
  }

  // ---------------------------------------------------------------------------------------
  // components

  lemma {:induction false} ComponentsOfEmpty()
    ensures Components([]) == []
  {
  }

  lemma {:induction false} PrependNothing(x: seq<string>)
    ensures [] + x == x
  {
  }

  lemma {:induction false} WordsAreNames(p: string, word: string)
    requires Sep !in word
    ensures forall k :: 0 <= k < |Words(p, word)| ==> IsName(Words(p, word)[k])
    decreases |p|
  {
    if p != [] {
      if p[0] == Sep {
        WordsAreNames(p[1..], []);
      } else {
        WordsAreNames(p[1..], word + [p[0]]);
      }
    }
  }

  /** Every component is a non-empty name without a separator. */
  lemma {:induction false} ComponentsAreNames(p: string)
    ensures forall k :: 0 <= k < |Components(p)| ==> IsName(Components(p)[k])
  {
    WordsAreNames(p, []);
  }

  lemma {:induction false} WordsSplit(a: string, b: string, word: string)
    ensures Words(a + [Sep] + b, word) == Words(a, word) + Words(b, [])
    decreases |a|
  {
    var s := a + [Sep] + b;
    if a == [] {
      assert s == [Sep] + b;
      assert s[1..] == b;
    } else {
      assert s[0] == a[0];
      assert s[1..] == a[1..] + [Sep] + b;
      if a[0] == Sep {
        WordsSplit(a[1..], b, []);
      } else {
        WordsSplit(a[1..], b, word + [a[0]]);
      }
    }
  }

  /** Splitting at a separator splits the components. */
  lemma {:induction false} ComponentsSplit(a: string, b: string)
    ensures Components(a + [Sep] + b) == Components(a) + Components(b)
  {
    WordsSplit(a, b, []);
  }

  lemma {:induction false} ComponentsDropSlash(a: string)
    ensures Components(a + [Sep]) == Components(a)
  {
    assert a + [Sep] + [] == a + [Sep];
    ComponentsSplit(a, []);
  }

  lemma {:induction false} ComponentsRStrip(s: string)
    ensures Components(RStripSlashes(s)) == Components(s)
    decreases |s|
  {
    if s != [] && s[|s| - 1] == Sep {
      var s0 := s[..|s| - 1];
      assert s == s0 + [Sep];
      ComponentsDropSlash(s0);
      ComponentsRStrip(s0);
    }
  }

  lemma {:induction false} WordsOfName(b: string, word: string)
    requires Sep !in b
    ensures Words(b, word) == Flush(word + b)
    decreases |b|
  {
    if b != [] {
      assert b[0] != Sep by { assert b[0] in b; }
      assert Sep !in b[1..] by {
        forall k | 0 <= k < |b[1..]|
          ensures b[1..][k] != Sep
        {
          assert b[1..][k] in b;
        }
      }
      WordsOfName(b[1..], word + [b[0]]);
      assert word + [b[0]] + b[1..] == word + b;
    } else {
      assert word + b == word;
    }
  }

  /** A string without a separator is one component, or none when it is empty. */
  lemma {:induction false} ComponentsOfWord(b: string)
    requires Sep !in b
    ensures Components(b) == Flush(b)
  {
    WordsOfName(b, []);
    assert [] + b == b;
  }

  lemma {:induction false} ComponentsOfName(b: string)
    requires IsName(b)
    ensures Components(b) == [b]
  {
    ComponentsOfWord(b);
  }

  /** `dirname` strips trailing separators from the head, which leaves its components as they are. */
  lemma {:induction false} ComponentsOfDirnameHead(p: string)
    ensures Components(Dirname(p)) == Components(p[..RFind(p, Sep) + 1])
  {
    ComponentsRStrip(p[..RFind(p, Sep) + 1]);
  }

  /** Cutting a path after its last separator cuts its components. */
  lemma {:induction false} ComponentsOfHeadAndBase(p: string)
    ensures Components(p) == Components(p[..RFind(p, Sep) + 1]) + Flush(Basename(p))
  {
    var i := RFind(p, Sep);
    var head := p[..i + 1];
    var base := p[i + 1..];
    assert Sep !in base by {
      BasenameHasNoSeparator(p);
    }
    assert Components(base) == Flush(base) by {
      ComponentsOfWord(base);
    }
    if i >= 0 {
      var pre := p[..i];
      assert p == pre + [Sep] + base && head == pre + [Sep] by {
        RFindSpec(p, Sep);
        assert p == p[..i] + [p[i]] + p[i + 1..];
      }
      ComponentsSplit(pre, base);
      ComponentsDropSlash(pre);
    } else {
      assert head == [] && base == p;
      ComponentsOfEmpty();
      PrependNothing(Flush(p));
    }
  }

  /** A path's components are its directory's components followed by its (non-empty) base name. */
  lemma {:induction false} ComponentsOfDirname(p: string)
    ensures Components(p) == Components(Dirname(p)) + Flush(Basename(p))
  {
    ComponentsOfDirnameHead(p);
    ComponentsOfHeadAndBase(p);
  }

  /** Joining a relative path appends its components. */
  lemma {:induction false} ComponentsJoin(a: string, b: string)
    requires b == [] || b[0] != Sep
    ensures Components(Join(a, b)) == Components(a) + Components(b)
  {
    if a == [] {
      JoinOntoEmpty(b);
      ComponentsOfEmpty();
      PrependNothing(Components(b));
    } else if a[|a| - 1] == Sep {
      var a0 := a[..|a| - 1];
      assert a0 + [Sep] == a;
      assert Join(a, b) == a0 + [Sep] + b;
      ComponentsSplit(a0, b);
      ComponentsDropSlash(a0);
    } else {
      assert Join(a, b) == a + [Sep] + b;
      ComponentsSplit(a, b);
    }
  }

  /** Joining names, none of them containing a separator, gives back exactly those names as components. */
  lemma {:induction false} ComponentsJoinAll(parts: seq<string>)
    requires parts != [] && forall k :: 0 <= k < |parts| ==> IsName(parts[k])
    ensures JoinAll(parts) != [] && JoinAll(parts)[0] != Sep
    ensures Components(JoinAll(parts)) == parts
  {
    var last := parts[|parts| - 1];
    assert IsName(last);
    assert last[0] != Sep by { assert last[0] in last; }
    if |parts| == 1 {
      ComponentsOfName(last);
    } else {
      var init := parts[..|parts| - 1];
      assert init + [last] == parts;
      assert forall k :: 0 <= k < |init| ==> IsName(init[k]) by {
        forall k | 0 <= k < |init|
          ensures IsName(init[k])
        {
          assert init[k] == parts[k];
        }
      }
      ComponentsJoinAll(init);
      var head := JoinAll(init);
      assert JoinAll(parts) == Join(head, last);
      assert Components(Join(head, last)) == init + [last] by {
        ComponentsOfName(last);
        ComponentsJoin(head, last);
      }
      JoinKeepsHead(head, last);
    }
  }


  // ---------------------------------------------------------------------------------------
  // relpath

  /** `commonprefix` is the longest common prefix. */
  lemma {:induction false} CommonPrefixIsLongest(a: seq<string>, b: seq<string>)
    ensures var n := CommonPrefixLength(a, b);
      a[..n] == b[..n] && (n < |a| && n < |b| ==> a[n] != b[n])
    decreases |a|
  {
    if a != [] && b != [] && a[0] == b[0] {
      CommonPrefixIsLongest(a[1..], b[1..]);
      var n := CommonPrefixLength(a, b);
      assert a[..n] == [a[0]] + a[1..][..n - 1];
      assert b[..n] == [b[0]] + b[1..][..n - 1];
    }
  }

  lemma {:induction false} CommonPrefixOfExtension(r: seq<string>, x: seq<string>)
    ensures CommonPrefixLength(r, r + x) == |r|
    decreases |r|
  {
    if r != [] {
      assert (r + x)[1..] == r[1..] + x;
      CommonPrefixOfExtension(r[1..], x);
    }
  }

  lemma {:induction false} NoRepeats(s: string)
    ensures Repeat(s, 0) == []
  {
  }

  lemma {:induction false} RelListBelow(startList: seq<string>, rest: seq<string>)
    ensures RelList(startList, startList + rest) == rest
  {
    CommonPrefixOfExtension(startList, rest);
    NoRepeats("..");
    PrependNothing(rest);
    assert (startList + rest)[|startList|..] == rest;
  }

  lemma {:induction false} RelPathUnfold(path: string, start: string)
    requires path != []
    ensures RelPath(path, start) == Some(JoinRelative(RelList(Components(start), Components(path))))
  {
  }

  /** A path strictly inside `start` is named relative to it by the components beyond `start`'s. */
  lemma {:induction false} RelPathBelow(path: string, start: string, rest: seq<string>)
    requires rest != [] && Components(path) == Components(start) + rest
    ensures RelPath(path, start) == Some(JoinAll(rest))
  {
    assert path != [] by {
      ComponentsOfEmpty();
    }
    assert RelList(Components(start), Components(path)) == rest by {
      RelListBelow(Components(start), rest);
    }
    RelPathUnfold(path, start);
  }

  // ---------------------------------------------------------------------------------------
  // splitext

  /** `splitext` cuts the path in two, and the second part is empty or a dot-led extension without a separator. */
  lemma {:induction false} SplitExtParts(p: string)
    ensures SplitExt(p).0 + SplitExt(p).1 == p
    ensures SplitExt(p).1 == [] || (SplitExt(p).1[0] == '.' && Sep !in SplitExt(p).1)
  {
    var sepIndex := RFind(p, Sep);
    var dotIndex := RFind(p, '.');
    RFindSpec(p, Sep);
    RFindSpec(p, '.');
    if dotIndex > sepIndex && HasNonDot(p[sepIndex + 1..dotIndex]) {
      var ext := p[dotIndex..];
      assert SplitExt(p) == (p[..dotIndex], ext);
      forall k | 0 <= k < |ext|
        ensures ext[k] != Sep
      {
        assert ext[k] == p[dotIndex + k];
      }
    } else {
      assert SplitExt(p) == (p, []);
    }
  }
}
