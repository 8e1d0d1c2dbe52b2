/**
 * The JavaScript string operations the services use, over strings of code points:
 * the `\s` character class (also what `trim()` removes), `trim`, the global
 * replacement `replace(/\s+/g, ' ')`, `split` with a string separator and `join`.
 */
module JsString {
  import opened Wrappers

  /** ECMAScript WhiteSpace and LineTerminator code points, the set matched by `\s` and removed by `trim()`. */
  predicate IsWhitespace(c: char) {
    c == '\U{0009}' || c == '\U{000A}' || c == '\U{000B}' || c == '\U{000C}' || c == '\U{000D}'
    || c == ' ' || c == '\U{00A0}' || c == '\U{1680}' || ('\U{2000}' <= c <= '\U{200A}')
    || c == '\U{2028}' || c == '\U{2029}' || c == '\U{202F}' || c == '\U{205F}'
    || c == '\U{3000}' || c == '\U{FEFF}'
  }

  /** `s.trim() === ''`: nothing but whitespace. */
  predicate IsBlank(s: string) {
    forall i :: 0 <= i < |s| ==> IsWhitespace(s[i])
  }

  /** The number of whitespace characters `s` starts with. */
  function LeadingWhitespace(s: string): (n: nat)
    ensures n <= |s|
    ensures forall i :: 0 <= i < n ==> IsWhitespace(s[i])
    ensures n == |s| || !IsWhitespace(s[n])
  {
    if s == [] || !IsWhitespace(s[0]) then 0 else 1 + LeadingWhitespace(s[1..])
  }

  /** The number of whitespace characters `s` ends with. */
  function TrailingWhitespace(s: string): (n: nat)
    ensures n <= |s|
    ensures forall i :: |s| - n <= i < |s| ==> IsWhitespace(s[i])
    ensures n == |s| || !IsWhitespace(s[|s| - n - 1])
  {
    if s == [] || !IsWhitespace(s[|s| - 1]) then 0 else 1 + TrailingWhitespace(s[..|s| - 1])
  }

  /** The leading whitespace of `s` removed. */
  function TrimStart(s: string): (r: string)
    ensures |r| <= |s| && r == s[|s| - |r|..]
    ensures forall i :: 0 <= i < |s| - |r| ==> IsWhitespace(s[i])
    ensures r == [] || !IsWhitespace(r[0])
  {
    s[LeadingWhitespace(s)..]
  }

  /** The trailing whitespace of `s` removed. */
  function TrimEnd(s: string): (r: string)
    ensures |r| <= |s| && r == s[..|r|]
    ensures forall i :: |r| <= i < |s| ==> IsWhitespace(s[i])
    ensures r == [] || !IsWhitespace(r[|r| - 1])
  {
    s[..|s| - TrailingWhitespace(s)]
  }

  /** `s.trim()`: the middle of `s` between its leading and trailing whitespace. */
  function Trim(s: string): (r: string)
    ensures r == [] || (!IsWhitespace(r[0]) && !IsWhitespace(r[|r| - 1]))
    ensures r == [] <==> IsBlank(s)
    ensures forall c :: c in r ==> c in s
  {
    TrimEnd(TrimStart(s))
  }

  /** Trim is the identity on a string that neither starts nor ends with whitespace. */
  lemma TrimUnchanged(s: string)
    requires s == [] || (!IsWhitespace(s[0]) && !IsWhitespace(s[|s| - 1]))
    ensures Trim(s) == s
  {
  }

  /** Whitespace in front of a string that starts with something else is all TrimStart removes. */
  lemma {:induction false} TrimStartAfterBlank(w: string, y: string)
    requires IsBlank(w) && (y == [] || !IsWhitespace(y[0]))
    ensures TrimStart(w + y) == y
    decreases |w|
  {
    if w == [] {
      assert w + y == y;
    } else {
      assert (w + y)[1..] == w[1..] + y;
      TrimStartAfterBlank(w[1..], y);
    }
  }

  /** TrimEnd of a string that keeps a non-whitespace character leaves what comes before the last part alone. */
  lemma {:induction false} TrimEndAfter(p: string, y: string)
    requires TrimEnd(y) != []
    ensures TrimEnd(p + y) == p + TrimEnd(y)
    decreases |y|
  {
    var s := p + y;
    if IsWhitespace(y[|y| - 1]) {
      assert s[..|s| - 1] == p + y[..|y| - 1];
      TrimEndAfter(p, y[..|y| - 1]);
    }
  }

  /** `s.replace(/\s+/g, ' ')`: every maximal run of whitespace becomes one space. */
  function CollapseWhitespace(s: string): (r: string)
    ensures forall i :: 0 <= i < |r| && IsWhitespace(r[i]) ==> r[i] == ' '
    ensures forall i :: 0 <= i < |r| - 1 ==> !(r[i] == ' ' && r[i + 1] == ' ')
    ensures forall c :: c in r && c != ' ' ==> c in s
    ensures |r| <= |s|
    ensures r == [] <==> s == []
    ensures r != [] ==> (IsWhitespace(r[0]) <==> IsWhitespace(s[0]))
    decreases |s|
  {
    if s == [] then []
    else if IsWhitespace(s[0]) then [' '] + CollapseWhitespace(TrimStart(s))
    else [s[0]] + CollapseWhitespace(s[1..])
  }

  /** Collapsing keeps every character that is not whitespace. */
  lemma {:induction false} CollapseKeeps(s: string, c: char)
    requires c in s && !IsWhitespace(c)
    ensures c in CollapseWhitespace(s)
    decreases |s|
  {
    if IsWhitespace(s[0]) {
      var t := TrimStart(s);
      var i :| 0 <= i < |s| && s[i] == c;
      assert t[i - (|s| - |t|)] == c;
      CollapseKeeps(t, c);
    } else if s[0] != c {
      assert c in s[1..];
      CollapseKeeps(s[1..], c);
    }
  }

  /** Trimming keeps every character that is not whitespace. */
  lemma TrimKeeps(s: string, c: char)
    requires c in s && !IsWhitespace(c)
    ensures c in Trim(s)
  {
    var t := TrimStart(s);
    var i :| 0 <= i < |s| && s[i] == c;
    assert t[i - (|s| - |t|)] == c;
    assert TrimEnd(t)[i - (|s| - |t|)] == c;
  }

  /** Collapsing changes nothing in a string whose only whitespace is single spaces. */
  lemma {:induction false} CollapseUnchanged(s: string)
    requires forall i :: 0 <= i < |s| && IsWhitespace(s[i]) ==> s[i] == ' '
    requires forall i :: 0 <= i < |s| - 1 ==> !(s[i] == ' ' && s[i + 1] == ' ')
    ensures CollapseWhitespace(s) == s
    decreases |s|
  {
    if s != [] {
      if IsWhitespace(s[0]) && |s| > 1 {
        assert !IsWhitespace(s[1]);
        assert TrimStart(s) == s[1..];
      }
      CollapseUnchanged(s[1..]);
    }
  }

  /** A run of whitespace before a non-whitespace character collapses to one space. */
  lemma CollapseRun(w: string, y: string)
    requires w != [] && IsBlank(w) && y != [] && !IsWhitespace(y[0])
    ensures CollapseWhitespace(w + y) == [' '] + CollapseWhitespace(y)
  {
    assert (w + y)[0] == w[0];
    TrimStartAfterBlank(w, y);
  }

  /** A character other than whitespace is kept, and what follows it collapses on its own. */
  lemma CollapseStep(c: char, u: string)
    requires !IsWhitespace(c)
    ensures CollapseWhitespace([c] + u) == [c] + CollapseWhitespace(u)
  {
    assert ([c] + u)[1..] == u;
  }

  lemma ConcatAssoc(x: string, y: string, z: string)
    ensures x + y + z == x + (y + z)
  {
  }

  lemma CollapseAppendFront(c: char, r: string, t: string)
    requires !IsWhitespace(c)
    requires CollapseWhitespace(r + t) == CollapseWhitespace(r) + CollapseWhitespace(t)
    ensures CollapseWhitespace([c] + r + t) == CollapseWhitespace([c] + r) + CollapseWhitespace(t)
  {
    ConcatAssoc([c], r, t);
    CollapseStep(c, r + t);
    CollapseStep(c, r);
    ConcatAssoc([c], CollapseWhitespace(r), CollapseWhitespace(t));
  }

  lemma CollapseAppendRun(w: string, y: string, t: string)
    requires w != [] && IsBlank(w) && y != [] && !IsWhitespace(y[0])
    requires CollapseWhitespace(y + t) == CollapseWhitespace(y) + CollapseWhitespace(t)
    ensures CollapseWhitespace(w + y + t) == CollapseWhitespace(w + y) + CollapseWhitespace(t)
  {
    ConcatAssoc(w, y, t);
    CollapseRun(w, y + t);
    CollapseRun(w, y);
    ConcatAssoc([' '], CollapseWhitespace(y), CollapseWhitespace(t));
  }

  /** Collapsing a string whose first part ends in a non-whitespace character collapses each part on its own. */
  lemma {:induction false} CollapseAppend(a: string, t: string)
    requires a != [] && !IsWhitespace(a[|a| - 1])
    ensures CollapseWhitespace(a + t) == CollapseWhitespace(a) + CollapseWhitespace(t)
    decreases |a|
  {
    if !IsWhitespace(a[0]) {
      var r := a[1..];
      assert a == [a[0]] + r;
      if r == [] {
        assert r + t == t;
      } else {
        CollapseAppend(r, t);
      }
      CollapseAppendFront(a[0], r, t);
    } else {
      var n := LeadingWhitespace(a);
      var w, y := a[..n], a[n..];
      assert a == w + y && IsBlank(w) && y != [];
      CollapseAppend(y, t);
      CollapseAppendRun(w, y, t);
    }
  }

  /** A string made only of whitespace collapses to a run of length at most one. */
  lemma CollapseBlank(s: string)
    requires IsBlank(s)
    ensures IsBlank(CollapseWhitespace(s))
  {
  }

  /** `sep` occurs in `s` starting at index `i`. */
  predicate OccursAt(s: string, sep: string, i: int) {
    0 <= i && i + |sep| <= |s| && forall j :: 0 <= j < |sep| ==> s[i + j] == sep[j]
  }

  /** A mismatch at one position rules out an occurrence. */
  lemma Mismatch(s: string, pat: string, i: int, j: int)
    requires 0 <= j < |pat| && 0 <= i + j < |s| && s[i + j] != pat[j]
    ensures !OccursAt(s, pat, i)
  {
  }

  /** The index of the first occurrence of `sep` in `s` at or after `from`, as `indexOf` finds it. */
  function IndexFrom(s: string, sep: string, from: nat): (r: Option<nat>)
    requires |sep| > 0
    ensures r.Some? ==> from <= r.value && OccursAt(s, sep, r.value)
    ensures r.Some? ==> forall i :: from <= i < r.value ==> !OccursAt(s, sep, i)
    ensures r.None? ==> forall i :: from <= i ==> !OccursAt(s, sep, i)
    decreases |s| - from
  {
    if from + |sep| > |s| then None
    else if OccursAt(s, sep, from) then Some(from)
    else IndexFrom(s, sep, from + 1)
  }

  /** The first occurrence of `sep` in `s` is at `k`. */
  lemma IndexFromIs(s: string, sep: string, k: nat)
    requires |sep| > 0 && OccursAt(s, sep, k)
    requires forall i :: 0 <= i < k ==> !OccursAt(s, sep, i)
    ensures IndexFrom(s, sep, 0) == Some(k)
  {
  }

  /** `s.split(sep)`: the pieces between the occurrences of `sep`, found left to right. */
  function Split(s: string, sep: string): (r: seq<string>)
    requires |sep| > 0
    ensures |r| >= 1
    ensures IndexFrom(s, sep, 0).None? ==> r == [s]
    decreases |s|
  {
    match IndexFrom(s, sep, 0)
    case None => [s]
    case Some(k) => [s[..k]] + Split(s[k + |sep|..], sep)
  }

  /** `parts.join(sep)`. */
  function Join(parts: seq<string>, sep: string): string
  {
    if |parts| == 0 then ""
    else if |parts| == 1 then parts[0]
    else Join(parts[..|parts| - 1], sep) + sep + parts[|parts| - 1]
  }

  /** Join unfolded from the front. */
  lemma {:induction false} JoinFront(parts: seq<string>, sep: string)
    requires |parts| >= 2
    ensures Join(parts, sep) == parts[0] + sep + Join(parts[1..], sep)
    decreases |parts|
  {
    if |parts| > 2 {
      var init := parts[..|parts| - 1];
      JoinFront(init, sep);
      assert init[1..] == parts[1..][..|parts[1..]| - 1];
    }
  }

  /** Joining a longer list: the join of the prefix, the separator, the new last part. */
  lemma JoinSnoc(parts: seq<string>, p: string, sep: string)
    requires |parts| >= 1
    ensures Join(parts + [p], sep) == Join(parts, sep) + sep + p
  {
    assert (parts + [p])[..|parts|] == parts;
  }

  /** `parts.join('')` of a longer list: the join of the prefix, then the new last part. */
  lemma JoinConcatSnoc(parts: seq<string>, p: string)
    ensures Join(parts + [p], "") == Join(parts, "") + p
  {
    if parts == [] {
      assert parts + [p] == [p];
    } else {
      JoinSnoc(parts, p, "");
    }
  }

  /** Splitting and joining back with the same separator gives the original string. */
  lemma {:induction false} JoinOfSplit(s: string, sep: string)
    requires |sep| > 0
    ensures Join(Split(s, sep), sep) == s
    decreases |s|
  {
    var found := IndexFrom(s, sep, 0);
    if found.Some? {
      var k := found.value;
      var rest := s[k + |sep|..];
      var tail := Split(rest, sep);
      JoinOfSplit(rest, sep);
      var parts := [s[..k]] + tail;
      assert Split(s, sep) == parts;
      JoinFront(parts, sep);
      assert parts[1..] == tail;
      Around(s, sep, k);
    }
  }

  /** A character that is not in the separator is in the join exactly when it is in one of the parts. */
  lemma {:induction false} JoinMembers(parts: seq<string>, sep: string, c: char)
    requires c !in sep
    ensures c in Join(parts, sep) <==> exists p :: p in parts && c in p
    decreases |parts|
  {
    if |parts| == 1 {
      assert parts[0] in parts;
    } else if |parts| > 1 {
      var init := parts[..|parts| - 1];
      var last := parts[|parts| - 1];
      JoinMembers(init, sep, c);
      assert parts == init + [last];
      assert c in Join(parts, sep) <==> c in Join(init, sep) || c in last;
    }
  }

  /** A one-character separator occurs exactly where that character is. */
  lemma OccursSingle(s: string, x: char, i: int)
    requires 0 <= i < |s|
    ensures OccursAt(s, [x], i) <==> s[i] == x
  {
    if OccursAt(s, [x], i) {
      assert s[i + 0] == [x][0];
    }
    if s[i] == x {
      assert forall j :: 0 <= j < |[x]| ==> s[i + j] == [x][j];
    }
  }

  /** The pieces of a string split at a single character it neither starts nor ends with and never doubles are non-empty and free of it. */
  lemma {:induction false} SplitPieces(s: string, x: char)
    requires s != [] && s[0] != x && s[|s| - 1] != x
    requires forall i :: 0 <= i < |s| - 1 ==> !(s[i] == x && s[i + 1] == x)
    ensures forall p :: p in Split(s, [x]) ==> p != [] && x !in p
    decreases |s|
  {
    var sep := [x];
    match IndexFrom(s, sep, 0)
    case None =>
      forall i | 0 <= i < |s|
        ensures s[i] != x
      {
        OccursSingle(s, x, i);
      }
    case Some(k) =>
      var rest := s[k + 1..];
      OccursSingle(s, x, k);
      forall i | 0 <= i < k
        ensures s[i] != x
      {
        OccursSingle(s, x, i);
      }
      assert rest[0] == s[k + 1];
      SplitPieces(rest, x);
      assert Split(s, sep) == [s[..k]] + Split(rest, sep);
  }

  /** A string is the part before an occurrence, the occurrence and the part after it. */
  lemma Around(s: string, sep: string, k: int)
    requires OccursAt(s, sep, k)
    ensures s == s[..k] + sep + s[k + |sep|..]
  {
    assert s[k..k + |sep|] == sep;
    assert s == s[..k] + s[k..k + |sep|] + s[k + |sep|..];
  }

  /** `sep` has a character, at index `m`, that occurs once in `sep` and in none of `parts`. */
  predicate MarkedBy(parts: seq<string>, sep: string, m: int) {
    0 <= m < |sep|
    && (forall j :: 0 <= j < |sep| && j != m ==> sep[j] != sep[m])
    && (forall p :: p in parts ==> sep[m] !in p)
  }

  /** The first occurrence of a marked separator in `p + sep + t` is the one after `p`. */
  lemma FirstSeparator(p: string, t: string, sep: string, m: int)
    requires MarkedBy([p], sep, m)
    ensures IndexFrom(p + sep + t, sep, 0) == Some(|p|)
  {
    var s := p + sep + t;
    assert p in [p];
    assert OccursAt(s, sep, |p|);
    IndexFromIs(s, sep, |p|);
  }

  /** A part without the marker contains no separator. */
  lemma NoSeparator(p: string, sep: string, m: int)
    requires MarkedBy([p], sep, m)
    ensures IndexFrom(p, sep, 0).None?
  {
    assert p in [p];
  }

  /** Splitting at a marked separator after a part without the marker yields that part first. */
  lemma SplitFront(p: string, t: string, sep: string, m: int)
    requires MarkedBy([p], sep, m)
    ensures Split(p + sep + t, sep) == [p] + Split(t, sep)
  {
    FirstSeparator(p, t, sep, m);
    var s := p + sep + t;
    assert s[..|p|] == p;
    assert s[|p| + |sep|..] == t;
  }

  /** The parts after the first are marked by the same character. */
  lemma MarkedTail(parts: seq<string>, sep: string, m: int)
    requires |parts| >= 1 && MarkedBy(parts, sep, m)
    ensures MarkedBy([parts[0]], sep, m) && MarkedBy(parts[1..], sep, m)
  {
    assert parts[0] in parts;
    forall p | p in parts[1..] ensures sep[m] !in p {
      assert p in parts;
    }
  }

  lemma SplitSingle(p: string, sep: string, m: int)
    requires MarkedBy([p], sep, m)
    ensures Split(Join([p], sep), sep) == [p]
  {
    NoSeparator(p, sep, m);
  }

  lemma SplitJoinStep(parts: seq<string>, sep: string, m: int)
    requires |parts| >= 2 && MarkedBy([parts[0]], sep, m)
    requires Split(Join(parts[1..], sep), sep) == parts[1..]
    ensures Split(Join(parts, sep), sep) == parts
  {
    JoinFront(parts, sep);
    SplitFront(parts[0], Join(parts[1..], sep), sep, m);
    assert parts == [parts[0]] + parts[1..];
  }

  /** Splitting a join recovers the parts when the separator is marked by a character none of them contains. */
  lemma {:induction false} SplitOfJoin(parts: seq<string>, sep: string, m: int)
    requires |parts| >= 1 && MarkedBy(parts, sep, m)
    ensures Split(Join(parts, sep), sep) == parts
    decreases |parts|
  {
    MarkedTail(parts, sep, m);
    if |parts| == 1 {
      assert parts == [parts[0]];
      SplitSingle(parts[0], sep, m);
    } else {
      SplitOfJoin(parts[1..], sep, m);
      SplitJoinStep(parts, sep, m);
    }
  }

  /** The number of positions at which `pat` occurs in `s`. */
  function Occurrences(s: string, pat: string): nat
    requires |pat| > 0
    decreases |s|
  {
    if |s| < |pat| then 0
    else (if OccursAt(s, pat, 0) then 1 else 0) + Occurrences(s[1..], pat)
  }

  /** An occurrence one place into `s[1..]` is one two places into `s`. */
  lemma OccursAtShift(s: string, pat: string, i: nat)
    requires |s| > 0
    ensures OccursAt(s[1..], pat, i) <==> OccursAt(s, pat, i + 1)
  {
  }

  /** Occurrences add up over a concatenation when no occurrence starts in `a` and ends in `b`. */
  lemma {:induction false} OccurrencesAppend(a: string, b: string, pat: string)
    requires |pat| > 0
    requires forall i :: |a| - |pat| < i < |a| ==> !OccursAt(a + b, pat, i)
    ensures Occurrences(a + b, pat) == Occurrences(a, pat) + Occurrences(b, pat)
    decreases |a|
  {
    var ab := a + b;
    if a == [] {
      assert ab == b;
    } else {
      assert ab[1..] == a[1..] + b;
      forall i | |a[1..]| - |pat| < i < |a[1..]|
        ensures !OccursAt(a[1..] + b, pat, i)
      {
        if i >= 0 {
          OccursAtShift(ab, pat, i);
        }
      }
      OccurrencesAppend(a[1..], b, pat);
      if |a| >= |pat| {
        assert OccursAt(ab, pat, 0) <==> OccursAt(a, pat, 0);
      }
    }
  }

  /** The number of times `c` occurs in `s`. */
  function CountChar(s: string, c: char): nat
  {
    if s == [] then 0 else (if s[0] == c then 1 else 0) + CountChar(s[1..], c)
  }

  lemma {:induction false} CountCharAppend(a: string, b: string, c: char)
    ensures CountChar(a + b, c) == CountChar(a, c) + CountChar(b, c)
    decreases |a|
  {
    if a == [] {
      assert a + b == b;
    } else {
      assert (a + b)[1..] == a[1..] + b;
      CountCharAppend(a[1..], b, c);
    }
  }

  lemma {:induction false} CountCharAbsent(s: string, c: char)
    requires c !in s
    ensures CountChar(s, c) == 0
    decreases |s|
  {
    if s != [] {
      assert c !in s[1..];
      CountCharAbsent(s[1..], c);
    }
  }
}
