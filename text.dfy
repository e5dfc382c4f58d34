/**
 * The few Python string operations the graph builder relies on, written out
 * over `seq<char>` and restricted to ASCII: `str.isspace`, `str.lower`,
 * `str.strip`, `in`, `str.split(sep)`, `str.replace(old, new)` and
 * `sep.join(parts)`.
 */
module Text {

  datatype Option<T> = None | Some(value: T)

  // Small facts about `+` on sequences. Proofs about the recursive string
  // functions below call these instead of asking the solver to rediscover
  // them element by element.

  lemma AppendAssoc<T>(a: seq<T>, b: seq<T>, c: seq<T>)
    ensures a + (b + c) == (a + b) + c
  {
  }

  lemma AppendEmpty<T>(a: seq<T>)
    ensures a + [] == a && [] + a == a
  {
  }

  lemma AppendFront<T>(x: seq<T>, y: seq<T>)
    requires x != []
    ensures (x + y)[0] == x[0] && (x + y)[1..] == x[1..] + y
  {
  }

  lemma AppendBack<T>(x: seq<T>, y: seq<T>)
    requires y != []
    ensures (x + y)[|x + y| - 1] == y[|y| - 1] && (x + y)[..|x + y| - 1] == x + y[..|y| - 1]
  {
  }

  lemma AppendParts<T>(x: seq<T>, y: seq<T>)
    ensures (x + y)[..|x|] == x && (x + y)[|x|..] == y
  {
  }

  lemma AppendDrop<T>(x: seq<T>, y: seq<T>, n: nat)
    requires n <= |x|
    ensures (x + y)[n..] == x[n..] + y
  {
  }

  lemma AppendTake<T>(x: seq<T>, y: seq<T>, m: nat)
    requires m <= |y|
    ensures (x + y)[..|x| + m] == x + y[..m]
  {
  }

  lemma AppendSlice<T>(x: seq<T>, y: seq<T>, i: nat, j: nat)
    requires i <= j <= |x|
    ensures (x + y)[i..j] == x[i..j]
  {
  }

  lemma SliceOfSlice<T>(s: seq<T>, i: nat, n: nat)
    requires i + n <= |s|
    ensures s[i..][..n] == s[i..i + n]
  {
  }

  lemma HeadTail<T>(s: seq<T>)
    requires s != []
    ensures [s[0]] + s[1..] == s
  {
  }

  lemma SliceSplit<T>(s: seq<T>, i: nat, j: nat)
    requires i <= j <= |s|
    ensures s == s[..i] + s[i..j] + s[j..]
  {
  }

  /** Python's `str.isspace` on ASCII: tab, line feed, vertical tab, form feed,
      carriage return (9..13), the four information separators (28..31) and
      the space (32). It is also what `\s` matches in a `str` pattern. */
  predicate IsSpace(c: char) {
    9 <= c as int <= 13 || 28 <= c as int <= 32
  }

  /** What `\w` matches on ASCII. */
  predicate IsWordChar(c: char) {
    'a' <= c <= 'z' || 'A' <= c <= 'Z' || '0' <= c <= '9' || c == '_'
  }

  predicate IsUpper(c: char) {
    'A' <= c <= 'Z'
  }

  function LowerChar(c: char): (r: char)
    ensures !IsUpper(r)
    ensures IsSpace(r) == IsSpace(c) && IsWordChar(r) == IsWordChar(c)
    ensures !IsUpper(c) ==> r == c
  {
    if IsUpper(c) then (c as int + 32) as char else c
  }

  /** `str.lower()` on ASCII. */
  function Lower(s: string): (r: string)
    ensures |r| == |s|
    ensures forall k :: 0 <= k < |s| ==> r[k] == LowerChar(s[k])
  {
    if s == [] then [] else [LowerChar(s[0])] + Lower(s[1..])
  }

  /** Lowercasing works character by character. */
  lemma {:induction false} LowerAppend(x: string, y: string)
    ensures Lower(x + y) == Lower(x) + Lower(y)
  {
    if x == [] {
      AppendEmpty(y);
      AppendEmpty(Lower(y));
    } else {
      AppendFront(x, y);
      LowerAppend(x[1..], y);
      AppendAssoc([LowerChar(x[0])], Lower(x[1..]), Lower(y));
    }
  }

  /** Text without capitals is its own lowercase. */
  lemma LowerIdentity(s: string)
    requires forall k :: 0 <= k < |s| ==> !IsUpper(s[k])
    ensures Lower(s) == s
  {
  }

  lemma LowerDrop(s: string, i: nat)
    requires i <= |s|
    ensures Lower(s)[i..] == Lower(s[i..])
  {
  }

  lemma LowerTake(s: string, i: nat)
    requires i <= |s|
    ensures Lower(s)[..i] == Lower(s[..i])
  {
  }

  /** The number of whitespace characters `s` starts with. */
  function LeadingSpaces(s: string): (n: nat)
    ensures n <= |s|
    ensures forall k :: 0 <= k < n ==> IsSpace(s[k])
    ensures n == |s| || !IsSpace(s[n])
  {
    if s != [] && IsSpace(s[0]) then 1 + LeadingSpaces(s[1..]) else 0
  }

  /** The number of whitespace characters `s` ends with. */
  function TrailingSpaces(s: string): (n: nat)
    ensures n <= |s|
    ensures forall k :: |s| - n <= k < |s| ==> IsSpace(s[k])
    ensures n == |s| || !IsSpace(s[|s| - 1 - n])
  {
    if s != [] && IsSpace(s[|s| - 1]) then 1 + TrailingSpaces(s[..|s| - 1]) else 0
  }

  /** The run of leading whitespace is determined by where the first
      non-space character is. */
  lemma LeadingSpacesUnique(s: string, n: nat)
    requires n <= |s|
    requires forall k :: 0 <= k < n ==> IsSpace(s[k])
    requires n == |s| || !IsSpace(s[n])
    ensures LeadingSpaces(s) == n
  {
  }

  lemma TrailingSpacesUnique(s: string, n: nat)
    requires n <= |s|
    requires forall k :: |s| - n <= k < |s| ==> IsSpace(s[k])
    requires n == |s| || !IsSpace(s[|s| - 1 - n])
    ensures TrailingSpaces(s) == n
  {
  }

  function TrimLeft(s: string): string {
    s[LeadingSpaces(s)..]
  }

  function TrimRight(s: string): string {
    s[..|s| - TrailingSpaces(s)]
  }

  /** `str.strip()` with no argument. */
  function Strip(s: string): (r: string)
    ensures |r| <= |s|
  {
    TrimRight(TrimLeft(s))
  }

  /** What `Strip` leaves has no whitespace at either end, and it is the
      piece of `s` between the leading and the trailing whitespace. */
  lemma StripShape(s: string)
    ensures var r := Strip(s);
      && (r == [] || (!IsSpace(r[0]) && !IsSpace(r[|r| - 1])))
      && (exists i, j :: 0 <= i <= j <= |s| && r == s[i..j]
            && (forall k :: 0 <= k < i ==> IsSpace(s[k]))
            && (forall k :: j <= k < |s| ==> IsSpace(s[k])))
  {
    StripEnds(s);
    var i := LeadingSpaces(s);
    var j := i + |TrimLeft(s)| - TrailingSpaces(TrimLeft(s));
    StripBetween(s);
    assert Strip(s) == s[i..j];
  }

  lemma StripEnds(s: string)
    ensures var r := Strip(s);
      r == [] || (!IsSpace(r[0]) && !IsSpace(r[|r| - 1]))
  {
    var t := TrimLeft(s);
    var m := TrailingSpaces(t);
    var r := Strip(s);
    if r != [] {
      assert r[0] == t[0] == s[LeadingSpaces(s)];
      assert r[|r| - 1] == t[|t| - 1 - m];
    }
  }

  lemma StripBetween(s: string)
    ensures var i := LeadingSpaces(s);
      var j := i + |TrimLeft(s)| - TrailingSpaces(TrimLeft(s));
      && i <= j <= |s|
      && Strip(s) == s[i..j]
      && (forall k :: j <= k < |s| ==> IsSpace(s[k]))
  {
    var i := LeadingSpaces(s);
    var t := TrimLeft(s);
    var m := TrailingSpaces(t);
    var j := i + |t| - m;
    SliceOfSlice(s, i, |t| - m);
    forall k | j <= k < |s|
      ensures IsSpace(s[k])
    {
      assert s[k] == t[k - i];
    }
  }

  lemma StripFixed(s: string)
    ensures Strip(s) == s <==> (s == [] || (!IsSpace(s[0]) && !IsSpace(s[|s| - 1])))
  {
    if s != [] && !IsSpace(s[0]) && !IsSpace(s[|s| - 1]) {
      assert LeadingSpaces(s) == 0;
      assert TrailingSpaces(s) == 0;
    }
  }

  /** Trailing whitespace is only looked for after the last non-space
      character of `x`. */
  lemma TrimRightAppend(x: string, y: string)
    requires x != [] && !IsSpace(x[|x| - 1])
    ensures TrimRight(x + y) == x + TrimRight(y)
  {
    var n := TrailingSpaces(y);
    var xy := x + y;
    assert forall k :: |xy| - n <= k < |xy| ==> xy[k] == y[k - |x|];
    if n < |y| {
      assert xy[|xy| - 1 - n] == y[|y| - 1 - n];
    } else {
      assert xy[|xy| - 1 - n] == x[|x| - 1];
    }
    TrailingSpacesUnique(xy, n);
    AppendTake(x, y, |y| - n);
  }

  /** Stripping commutes with ASCII lowercasing, which never turns a space into
      a non-space or back. */
  lemma StripLower(s: string)
    ensures Strip(Lower(s)) == Lower(Strip(s))
  {
    TrimLeftLower(s);
    TrimRightLower(TrimLeft(s));
  }

  lemma TrimLeftLower(s: string)
    ensures TrimLeft(Lower(s)) == Lower(TrimLeft(s))
  {
    LeadingSpacesLower(s);
    LowerDrop(s, LeadingSpaces(s));
  }

  lemma TrimRightLower(s: string)
    ensures TrimRight(Lower(s)) == Lower(TrimRight(s))
  {
    TrailingSpacesLower(s);
    LowerTake(s, |s| - TrailingSpaces(s));
  }

  /** Lowercasing keeps whitespace where it is. */
  lemma LeadingSpacesLower(s: string)
    ensures LeadingSpaces(Lower(s)) == LeadingSpaces(s)
  {
    var n, l := LeadingSpaces(s), Lower(s);
    forall k | 0 <= k < n
      ensures IsSpace(l[k])
    {
      assert l[k] == LowerChar(s[k]);
    }
    if n < |s| {
      assert l[n] == LowerChar(s[n]);
    }
    LeadingSpacesUnique(l, n);
  }

  lemma TrailingSpacesLower(s: string)
    ensures TrailingSpaces(Lower(s)) == TrailingSpaces(s)
  {
    var n, l := TrailingSpaces(s), Lower(s);
    forall k | |l| - n <= k < |l|
      ensures IsSpace(l[k])
    {
      assert l[k] == LowerChar(s[k]);
    }
    if n < |s| {
      assert l[|l| - 1 - n] == LowerChar(s[|s| - 1 - n]);
    }
    TrailingSpacesUnique(l, n);
  }

  predicate OccursAt(s: string, pat: string, i: nat) {
    i + |pat| <= |s| && s[i..i + |pat|] == pat
  }

  /** Python's `s.find(pat, from)`: the index of the first occurrence of `pat`
      in `s` at or after `from`, or -1 when there is none. */
  function FindFrom(s: string, pat: string, from: nat): (r: int)
    requires from <= |s|
    ensures r == -1 || (from <= r && OccursAt(s, pat, r))
    ensures forall k :: from <= k <= |s| && (r == -1 || k < r) ==> !OccursAt(s, pat, k)
    decreases |s| - from
  {
    if OccursAt(s, pat, from) then from
    else if from == |s| then -1
    else FindFrom(s, pat, from + 1)
  }

  /** Python's `s.find(pat)`. */
  function Find(s: string, pat: string): int {
    FindFrom(s, pat, 0)
  }

  /** Python's `pat in s`. */
  predicate Contains(s: string, pat: string) {
    Find(s, pat) >= 0
  }

  /** `Contains` holds exactly when `pat` occurs somewhere in `s`. */
  lemma ContainsIff(s: string, pat: string)
    ensures Contains(s, pat) <==> exists k :: 0 <= k <= |s| && OccursAt(s, pat, k)
  {
  }

  /** A text in which the first character of `sep` never appears does not
      contain `sep`. */
  lemma FindAbsent(x: string, sep: string)
    requires sep != [] && sep[0] !in x
    ensures Find(x, sep) == -1
  {
  }

  /** A text that lacks some character of `sep` does not contain `sep`. */
  lemma FindMissing(x: string, sep: string, j: nat)
    requires j < |sep| && sep[j] !in x
    ensures Find(x, sep) == -1
  {
    forall k | 0 <= k <= |x|
      ensures !OccursAt(x, sep, k)
    {
      if k + |sep| <= |x| {
        assert x[k..k + |sep|][j] == x[k + j];
      }
    }
  }

  /** An occurrence stays an occurrence when text is added on either side. */
  lemma OccursPrefix(u: string, s: string, pat: string, i: nat)
    requires OccursAt(s, pat, i)
    ensures OccursAt(u + s, pat, |u| + i)
  {
    assert (u + s)[|u| + i..|u| + i + |pat|] == s[i..i + |pat|];
  }

  lemma OccursSuffix(s: string, v: string, pat: string, i: nat)
    requires OccursAt(s, pat, i)
    ensures OccursAt(s + v, pat, i)
  {
    assert (s + v)[i..i + |pat|] == s[i..i + |pat|];
  }

  /** `sep` cannot start anywhere inside `x`: either `x` lacks `sep[0]`, or it
      lacks `sep[1]` and `sep` does not begin with a repeated character. */
  predicate NoStartIn(x: string, sep: string)
    requires sep != []
  {
    sep[0] !in x || (|sep| >= 2 && sep[1] !in x && sep[0] != sep[1])
  }

  /** In `x + sep + y` the first occurrence of `sep` is the one right after
      `x`, when `sep` cannot start inside `x`. */
  lemma FindAfter(x: string, sep: string, y: string)
    requires sep != [] && NoStartIn(x, sep)
    ensures Find(x + sep + y, sep) == |x|
  {
    var s := x + sep + y;
    assert s[|x|..|x| + |sep|] == sep;
    assert OccursAt(s, sep, |x|);
  }

  /** Python's `s.split(sep)` for a non-empty separator: the pieces between
      successive non-overlapping occurrences of `sep`, scanning left to right.
      No piece contains `sep`. */
  function Split(s: string, sep: string): (parts: seq<string>)
    requires sep != []
    ensures |parts| >= 1
    ensures forall k :: 0 <= k < |parts| ==> Find(parts[k], sep) == -1
    decreases |s|
  {
    var i := Find(s, sep);
    if i < 0 then [s]
    else
      NoEarlierOccurrence(s, sep);
      [s[..i]] + Split(s[i + |sep|..], sep)
  }

  lemma NoEarlierOccurrence(s: string, sep: string)
    requires sep != [] && Find(s, sep) >= 0
    ensures Find(s[..Find(s, sep)], sep) == -1
  {
    var i := Find(s, sep);
    var k := Find(s[..i], sep);
    if k >= 0 {
      assert s[..i][k..k + |sep|] == s[k..k + |sep|];
      assert OccursAt(s, sep, k);
    }
  }

  /** One step of `Split`: cutting at the first occurrence. */
  lemma SplitStep(s: string, sep: string)
    requires sep != [] && Find(s, sep) >= 0
    ensures var i := Find(s, sep);
      Split(s, sep) == [s[..i]] + Split(s[i + |sep|..], sep)
  {
  }

  /** Python's `sep.join(parts)`. */
  function Join(parts: seq<string>, sep: string): string
  {
    if |parts| == 0 then []
    else if |parts| == 1 then parts[0]
    else parts[0] + sep + Join(parts[1..], sep)
  }

  lemma JoinCons(x: string, tail: seq<string>, sep: string)
    requires tail != []
    ensures Join([x] + tail, sep) == x + sep + Join(tail, sep)
  {
    AppendFront([x], tail);
  }

  /** Splitting and joining again with the same separator gives back the
      text: `sep.join(s.split(sep)) == s`. */
  lemma {:induction false} JoinSplit(s: string, sep: string)
    requires sep != []
    ensures Join(Split(s, sep), sep) == s
    decreases |s|
  {
    var i := Find(s, sep);
    if i >= 0 {
      var rest := s[i + |sep|..];
      SplitStep(s, sep);
      JoinCons(s[..i], Split(rest, sep), sep);
      JoinSplit(rest, sep);
      assert s[i..i + |sep|] == sep;
      SliceSplit(s, i, i + |sep|);
    }
  }

  /** Splitting `x + sep + rest`, where `sep` cannot start inside `x`, cuts
      off `x` first. */
  lemma SplitCons(x: string, sep: string, rest: string)
    requires sep != [] && NoStartIn(x, sep)
    ensures Split(x + sep + rest, sep) == [x] + Split(rest, sep)
  {
    var s := x + sep + rest;
    FindAfter(x, sep, rest);
    AppendParts(x + sep, rest);
    AppendParts(x, sep);
    assert s[..|x|] == x;
    SplitStep(s, sep);
  }

  /** Joining pieces after which `sep` cannot start, the last of which does
      not contain `sep`, and then splitting on `sep`, gives back the pieces. */
  lemma {:induction false} SplitJoin(parts: seq<string>, sep: string)
    requires sep != [] && parts != []
    requires forall k :: 0 <= k < |parts| - 1 ==> NoStartIn(parts[k], sep)
    requires Find(parts[|parts| - 1], sep) == -1
    ensures Split(Join(parts, sep), sep) == parts
  {
    if |parts| > 1 {
      var tail := parts[1..];
      assert forall k :: 0 <= k < |tail| - 1 ==> tail[k] == parts[k + 1];
      assert tail[|tail| - 1] == parts[|parts| - 1];
      SplitJoin(tail, sep);
      SplitCons(parts[0], sep, Join(tail, sep));
      HeadTail(parts);
    } else {
      assert parts == [parts[0]];
    }
  }

  /** Python's `s.replace(pat, repl)` for a non-empty pattern: every occurrence
      found in one left-to-right scan is replaced, and the scan resumes after
      the replaced occurrence (it does not look again at text the replacement
      brought together). */
  function Replace(s: string, pat: string, repl: string): string
    requires pat != []
    decreases |s|
  {
    var i := Find(s, pat);
    if i < 0 then s else s[..i] + repl + Replace(s[i + |pat|..], pat, repl)
  }

  /** One step of `Replace`: rewriting the first occurrence. */
  lemma ReplaceStep(s: string, pat: string, repl: string)
    requires pat != [] && Find(s, pat) >= 0
    ensures var i := Find(s, pat);
      Replace(s, pat, repl) == s[..i] + repl + Replace(s[i + |pat|..], pat, repl)
  {
  }

  /** `s.replace(pat, repl) == repl.join(s.split(pat))`: both cut `s` at the same
      occurrences of `pat`. */
  lemma {:induction false} ReplaceIsJoinOfSplit(s: string, pat: string, repl: string)
    requires pat != []
    ensures Replace(s, pat, repl) == Join(Split(s, pat), repl)
    decreases |s|
  {
    var i := Find(s, pat);
    if i >= 0 {
      var rest := s[i + |pat|..];
      ReplaceIsJoinOfSplit(rest, pat, repl);
      ReplaceStep(s, pat, repl);
      SplitStep(s, pat);
      JoinCons(s[..i], Split(rest, pat), repl);
    }
  }

  /** A text in which the one-character pattern `[c]` is not found has no `c`. */
  lemma FindCharAbsent(s: string, c: char)
    requires Find(s, [c]) == -1
    ensures c !in s
  {
    forall k | 0 <= k < |s|
      ensures s[k] != c
    {
      assert s[k..k + 1] == [s[k]];
      assert !OccursAt(s, [c], k);
    }
  }

  lemma NotInAppend<T>(x: seq<T>, y: seq<T>, c: T)
    requires c !in x && c !in y
    ensures c !in x + y
  {
  }

  /** `s.replace(c, '')` leaves no `c` behind. */
  lemma {:induction false} ReplaceDeletesChar(s: string, c: char)
    ensures c !in Replace(s, [c], [])
    decreases |s|
  {
    var i := Find(s, [c]);
    if i < 0 {
      FindCharAbsent(s, c);
    } else {
      NoEarlierOccurrence(s, [c]);
      FindCharAbsent(s[..i], c);
      ReplaceStep(s, [c], []);
      ReplaceDeletesChar(s[i + 1..], c);
      AppendEmpty(s[..i]);
      NotInAppend(s[..i], Replace(s[i + 1..], [c], []), c);
    }
  }

  /** A text that does not contain the pattern is left unchanged. */
  lemma ReplaceAbsent(s: string, pat: string, repl: string)
    requires pat != [] && Find(s, pat) == -1
    ensures Replace(s, pat, repl) == s
  {
  }
}
