/**
 * `slugify` and `generate_uri` of the graph builder: the normalisation that
 * turns a playlist, artist or song name into the local part of a URI.
 */
module Slug {
  import opened Text

  /** The characters of the class `[-\s]`. */
  predicate IsSeparator(c: char) {
    c == '-' || IsSpace(c)
  }

  /** The characters a slug is made of: lowercase ASCII letters, digits and
      the underscore. */
  predicate IsSlugChar(c: char) {
    'a' <= c <= 'z' || '0' <= c <= '9' || c == '_'
  }

  predicate AllSeparators(s: string) {
    forall k :: 0 <= k < |s| ==> IsSeparator(s[k])
  }

  predicate AllWordOrSeparator(s: string) {
    forall k :: 0 <= k < |s| ==> IsWordChar(s[k]) || IsSeparator(s[k])
  }

  predicate AllDisallowed(s: string) {
    forall k :: 0 <= k < |s| ==> !IsWordChar(s[k]) && !IsSeparator(s[k])
  }

  predicate AllWord(s: string) {
    forall k :: 0 <= k < |s| ==> IsWordChar(s[k])
  }

  predicate NoSeparator(s: string) {
    forall k :: 0 <= k < |s| ==> !IsSeparator(s[k])
  }

  predicate NoUpper(s: string) {
    forall k :: 0 <= k < |s| ==> !IsUpper(s[k])
  }

  /** `re.sub(r'[^\w\s-]', '', s)`: deletes every character that is neither a
      word character nor whitespace nor `-`, keeping the others in order. */
  function DeleteDisallowed(s: string): (r: string)
    ensures |r| <= |s|
  {
    if s == [] then []
    else if IsWordChar(s[0]) || IsSeparator(s[0]) then [s[0]] + DeleteDisallowed(s[1..])
    else DeleteDisallowed(s[1..])
  }

  /** What survives the deletion is word characters, whitespace and `-`, and
      no capital appears that was not there before. */
  lemma {:induction false} DeleteDisallowedKeeps(s: string)
    ensures AllWordOrSeparator(DeleteDisallowed(s))
    ensures NoUpper(s) ==> NoUpper(DeleteDisallowed(s))
  {
    if s != [] {
      DeleteDisallowedKeeps(s[1..]);
    }
  }

  /** Text made only of allowed characters is kept whole; text made only of
      disallowed characters vanishes. */
  lemma {:induction false} DeleteDisallowedFixed(s: string)
    ensures AllWordOrSeparator(s) ==> DeleteDisallowed(s) == s
    ensures AllDisallowed(s) ==> DeleteDisallowed(s) == []
  {
    if s != [] {
      DeleteDisallowedFixed(s[1..]);
      if AllWordOrSeparator(s) {
        AppendFront([s[0]], s[1..]);
      }
    }
  }

  /** Deleting characters one by one works piecewise. */
  lemma {:induction false} DeleteDisallowedAppend(x: string, y: string)
    ensures DeleteDisallowed(x + y) == DeleteDisallowed(x) + DeleteDisallowed(y)
  {
    if x == [] {
      AppendEmpty(y);
      AppendEmpty(DeleteDisallowed(y));
    } else {
      AppendFront(x, y);
      DeleteDisallowedAppend(x[1..], y);
      AppendAssoc([x[0]], DeleteDisallowed(x[1..]), DeleteDisallowed(y));
    }
  }

  /** The length of the run of whitespace and `-` that `s` starts with. */
  function LeadingSeparators(s: string): (n: nat)
    ensures n <= |s|
    ensures forall k :: 0 <= k < n ==> IsSeparator(s[k])
    ensures n == |s| || !IsSeparator(s[n])
  {
    if s != [] && IsSeparator(s[0]) then 1 + LeadingSeparators(s[1..]) else 0
  }

  lemma LeadingSeparatorsUnique(s: string, n: nat)
    requires n <= |s|
    requires forall k :: 0 <= k < n ==> IsSeparator(s[k])
    requires n == |s| || !IsSeparator(s[n])
    ensures LeadingSeparators(s) == n
  {
  }

  /** `re.sub(r'[-\s]+', '_', s)`: every maximal run of whitespace and `-`
      becomes one `_`; the other characters stay. */
  function CollapseSeparators(s: string): (r: string)
    ensures |r| <= |s|
    decreases |s|
  {
    if s == [] then []
    else if IsSeparator(s[0]) then "_" + CollapseSeparators(s[LeadingSeparators(s)..])
    else [s[0]] + CollapseSeparators(s[1..])
  }

  /** Collapsing leaves no separator, and adds nothing but `_`. */
  lemma CollapseSeparatorsKeeps(s: string)
    ensures NoSeparator(CollapseSeparators(s))
    ensures AllWordOrSeparator(s) ==> AllWord(CollapseSeparators(s))
    ensures NoUpper(s) ==> NoUpper(CollapseSeparators(s))
  {
    CollapseNoSeparator(s);
    if AllWordOrSeparator(s) {
      CollapseAllWord(s);
    }
    if NoUpper(s) {
      CollapseNoUpper(s);
    }
  }

  /** What `CollapseSeparators` continues with after the first character or run. */
  function CollapseRest(s: string): (rest: string)
    requires s != []
    ensures |rest| < |s| && rest == s[|s| - |rest|..]
  {
    if IsSeparator(s[0]) then s[LeadingSeparators(s)..] else s[1..]
  }

  lemma CollapseUnfold(s: string)
    requires s != []
    ensures CollapseSeparators(s) == [if IsSeparator(s[0]) then '_' else s[0]] + CollapseSeparators(CollapseRest(s))
  {
  }

  lemma {:induction false} CollapseNoSeparator(s: string)
    ensures NoSeparator(CollapseSeparators(s))
    decreases |s|
  {
    if s != [] {
      CollapseUnfold(s);
      CollapseNoSeparator(CollapseRest(s));
    }
  }

  lemma {:induction false} CollapseAllWord(s: string)
    requires AllWordOrSeparator(s)
    ensures AllWord(CollapseSeparators(s))
    decreases |s|
  {
    if s != [] {
      var rest := CollapseRest(s);
      assert forall k :: 0 <= k < |rest| ==> rest[k] == s[|s| - |rest| + k];
      CollapseUnfold(s);
      CollapseAllWord(rest);
    }
  }

  lemma {:induction false} CollapseNoUpper(s: string)
    requires NoUpper(s)
    ensures NoUpper(CollapseSeparators(s))
    decreases |s|
  {
    if s != [] {
      var rest := CollapseRest(s);
      assert forall k :: 0 <= k < |rest| ==> rest[k] == s[|s| - |rest| + k];
      CollapseUnfold(s);
      CollapseNoUpper(rest);
    }
  }

  /** Text without separators is left alone. */
  lemma {:induction false} CollapseSeparatorsFixed(s: string)
    requires NoSeparator(s)
    ensures CollapseSeparators(s) == s
  {
    if s != [] {
      CollapseSeparatorsFixed(s[1..]);
      AppendFront([s[0]], s[1..]);
    }
  }

  /** Lowercasing moves no character between the classes `\w`, `[-\s]` and
      the rest. */
  lemma LowerKeepsClasses(s: string)
    ensures AllWord(s) ==> AllWord(Lower(s))
    ensures AllDisallowed(s) ==> AllDisallowed(Lower(s))
  {
  }

  lemma DeleteKeepsAllowed(a: string, b: string, c: string, t: string)
    requires AllWord(a) && AllSeparators(b) && AllWord(c) && AllDisallowed(t)
    ensures DeleteDisallowed(a + b + c + t) == a + b + c
  {
    DeleteDisallowedAppend(a + b + c, t);
    DeleteDisallowedAppend(a + b, c);
    DeleteDisallowedAppend(a, b);
    DeleteDisallowedFixed(a);
    DeleteDisallowedFixed(b);
    DeleteDisallowedFixed(c);
    DeleteDisallowedFixed(t);
    AppendEmpty(a + b + c);
  }

  /** A run of separators at the start of `x + y` stops inside `x` unless `x`
      is all separators, in which case it carries on into `y`. */
  lemma LeadingSeparatorsAppend(x: string, y: string)
    ensures !AllSeparators(x) ==> LeadingSeparators(x + y) == LeadingSeparators(x)
    ensures AllSeparators(x) ==> LeadingSeparators(x + y) == |x| + LeadingSeparators(y)
  {
    var xy := x + y;
    if AllSeparators(x) {
      var n := |x| + LeadingSeparators(y);
      assert forall k :: |x| <= k < |xy| ==> xy[k] == y[k - |x|];
      LeadingSeparatorsUnique(xy, n);
    } else {
      var n := LeadingSeparators(x);
      assert forall k :: 0 <= k < |x| ==> xy[k] == x[k];
      LeadingSeparatorsUnique(xy, n);
    }
  }

  /** Collapsing works piecewise as long as no run of separators straddles
      the cut. */
  lemma {:induction false} CollapseAppend(x: string, y: string)
    requires x == [] || y == [] || !IsSeparator(x[|x| - 1]) || !IsSeparator(y[0])
    ensures CollapseSeparators(x + y) == CollapseSeparators(x) + CollapseSeparators(y)
    decreases |x|, 1
  {
    if x == [] {
      AppendEmpty(y);
      AppendEmpty(CollapseSeparators(y));
    } else if y == [] {
      AppendEmpty(x);
      AppendEmpty(CollapseSeparators(x));
    } else if !IsSeparator(x[0]) {
      AppendFront(x, y);
      CollapseAppend(x[1..], y);
      AppendAssoc([x[0]], CollapseSeparators(x[1..]), CollapseSeparators(y));
    } else {
      CollapseAppendRun(x, y);
    }
  }

  /** The case of `CollapseAppend` where `x` starts with a run of separators. */
  lemma {:induction false} CollapseAppendRun(x: string, y: string)
    requires x != [] && y != [] && IsSeparator(x[0])
    requires !IsSeparator(x[|x| - 1]) || !IsSeparator(y[0])
    ensures CollapseSeparators(x + y) == CollapseSeparators(x) + CollapseSeparators(y)
    decreases |x|, 0
  {
    LeadingSeparatorsAppend(x, y);
    if AllSeparators(x) {
      CollapseAllSeparators(x, y);
    } else {
      var n := LeadingSeparators(x);
      var rest := x[n..];
      AppendDrop(x, y, n);
      assert CollapseSeparators(x + y) == "_" + CollapseSeparators(rest + y);
      assert rest[|rest| - 1] == x[|x| - 1];
      CollapseAppend(rest, y);
      AppendAssoc("_", CollapseSeparators(rest), CollapseSeparators(y));
    }
  }

  /** A text made only of separators followed by `y` collapses to `_` and `y` collapsed. */
  lemma CollapseAllSeparators(x: string, y: string)
    requires x != [] && AllSeparators(x) && y != [] && !IsSeparator(y[0])
    ensures CollapseSeparators(x + y) == CollapseSeparators(x) + CollapseSeparators(y)
  {
    var xy := x + y;
    LeadingSeparatorsAppend(x, y);
    assert LeadingSeparators(y) == 0;
    AppendParts(x, y);
    AppendFront(x, y);
    assert IsSeparator(xy[0]);
    assert xy[LeadingSeparators(xy)..] == y;
    assert CollapseSeparators(xy) == "_" + CollapseSeparators(y);
    assert LeadingSeparators(x) == |x|;
    assert x[LeadingSeparators(x)..] == [];
    assert CollapseSeparators(x) == "_" + CollapseSeparators([]);
  }

  /** A run of separators between two non-separators becomes exactly one
      `_`, however long the run is and whatever it is made of. */
  lemma CollapseRun(x: string, run: string, y: string)
    requires run != [] && AllSeparators(run)
    requires x == [] || !IsSeparator(x[|x| - 1])
    requires y == [] || !IsSeparator(y[0])
    ensures CollapseSeparators(x + run + y) == CollapseSeparators(x) + "_" + CollapseSeparators(y)
  {
    var tail := run + y;
    var cx, cy := CollapseSeparators(x), CollapseSeparators(y);
    assert CollapseSeparators(tail) == "_" + cy by {
      AppendFront(run, y);
      LeadingSeparatorsAppend(run, y);
      AppendParts(run, y);
    }
    CollapseAppend(x, tail);
    AppendAssoc(x, run, y);
    AppendAssoc(cx, "_", cy);
  }

  /** `slugify`: strip, lowercase, delete what is not a word character,
      whitespace or `-`, then turn each run of whitespace and `-` into `_`.
      The result is made of lowercase letters, digits and `_` only. */
  function Slugify(text: string): (r: string)
    ensures forall k :: 0 <= k < |r| ==> IsSlugChar(r[k])
  {
    var lowered := Lower(Strip(text));
    DeleteDisallowedKeeps(lowered);
    CollapseSeparatorsKeeps(DeleteDisallowed(lowered));
    CollapseSeparators(DeleteDisallowed(lowered))
  }

  /** Slugifying a slug changes nothing: a slug has no whitespace to strip,
      no capital to lower, nothing to delete and no separator to collapse. */
  lemma SlugifyIdempotent(text: string)
    ensures Slugify(Slugify(text)) == Slugify(text)
  {
    var r := Slugify(text);
    SlugStagesFixed(r);
  }

  /** Each stage of `Slugify` leaves a slug alone. */
  lemma SlugStagesFixed(r: string)
    requires forall k :: 0 <= k < |r| ==> IsSlugChar(r[k])
    ensures Strip(r) == r && Lower(r) == r
    ensures DeleteDisallowed(r) == r && CollapseSeparators(r) == r
  {
    SlugStripFixed(r);
    SlugLowerFixed(r);
    SlugDeleteFixed(r);
    SlugCollapseFixed(r);
  }

  lemma SlugStripFixed(r: string)
    requires forall k :: 0 <= k < |r| ==> IsSlugChar(r[k])
    ensures Strip(r) == r
  {
    if r != [] {
      assert IsSlugChar(r[0]) && IsSlugChar(r[|r| - 1]);
    }
    StripFixed(r);
  }

  lemma SlugLowerFixed(r: string)
    requires forall k :: 0 <= k < |r| ==> IsSlugChar(r[k])
    ensures Lower(r) == r
  {
    assert NoUpper(r);
    LowerIdentity(r);
  }

  lemma SlugDeleteFixed(r: string)
    requires forall k :: 0 <= k < |r| ==> IsSlugChar(r[k])
    ensures DeleteDisallowed(r) == r
  {
    assert AllWordOrSeparator(r);
    DeleteDisallowedFixed(r);
  }

  lemma SlugCollapseFixed(r: string)
    requires forall k :: 0 <= k < |r| ==> IsSlugChar(r[k])
    ensures CollapseSeparators(r) == r
  {
    assert NoSeparator(r);
    CollapseSeparatorsFixed(r);
  }

  /** Names that differ only in letter case have the same slug. */
  lemma SlugifyIgnoresCase(x: string, y: string)
    requires Lower(x) == Lower(y)
    ensures Slugify(x) == Slugify(y)
  {
    StripLower(x);
    StripLower(y);
  }

  /** A name made of two words of ASCII word characters, joined by any run
      of whitespace and `-` and followed by any punctuation, slugs to the two
      words lowercased and joined by one `_`. */
  lemma SlugifyTwoWords(x: string, run: string, y: string, tail: string)
    requires x != [] && y != [] && AllWord(x) && AllWord(y)
    requires run != [] && AllSeparators(run)
    requires AllDisallowed(tail)
    ensures Slugify(x + run + y + tail) == Lower(x) + "_" + Lower(y)
  {
    StripTwoWords(x, run, y, tail);
    LowerTwoWords(x, run, y, tail);
    LowerKeepsClasses(x);
    LowerKeepsClasses(y);
    LowerKeepsClasses(tail);
    DeleteKeepsAllowed(Lower(x), run, Lower(y), Lower(tail));
    CollapseTwoWords(Lower(x), run, Lower(y));
  }

  lemma StripTwoWords(x: string, run: string, y: string, tail: string)
    requires x != [] && y != [] && AllWord(x) && AllWord(y)
    requires AllDisallowed(tail)
    ensures Strip(x + run + y + tail) == x + run + y + tail
  {
    var s := x + run + y + tail;
    assert s[0] == x[0];
    assert s[|s| - 1] == if tail == [] then y[|y| - 1] else tail[|tail| - 1];
    StripFixed(s);
  }

  lemma LowerTwoWords(x: string, run: string, y: string, tail: string)
    requires AllSeparators(run)
    ensures Lower(x + run + y + tail) == Lower(x) + run + Lower(y) + Lower(tail)
  {
    LowerAppend(x + run + y, tail);
    LowerAppend(x + run, y);
    LowerAppend(x, run);
    assert Lower(run) == run by {
      LowerIdentity(run);
    }
  }

  lemma CollapseTwoWords(x: string, run: string, y: string)
    requires x != [] && y != [] && AllWord(x) && AllWord(y)
    requires run != [] && AllSeparators(run)
    ensures CollapseSeparators(x + run + y) == x + "_" + y
  {
    assert NoSeparator(x) && NoSeparator(y);
    CollapseSeparatorsFixed(x);
    CollapseSeparatorsFixed(y);
    CollapseRun(x, run, y);
  }

  /** The two spellings of one band name, `Pink   Floyd!!` and `pink-floyd`,
      give one slug. The literals come in as parameters fixed by `requires`,
      and the small helpers below take the text apart step by step: unfolding
      string literals inline costs the solver more than its resource limit. */
  lemma SlugifyPinkFloyd(spaced: string, hyphenated: string)
    requires spaced == "Pink   Floyd!!" && hyphenated == "pink-floyd"
    ensures Slugify(spaced) == Slugify(hyphenated) == "pink_floyd"
  {
    SlugifySpaced(spaced);
    SlugifyHyphenated(hyphenated);
  }

  lemma SlugifySpaced(spaced: string)
    requires spaced == "Pink   Floyd!!"
    ensures Slugify(spaced) == "pink_floyd"
  {
    var pink, floyd, gap, bang := "Pink", "Floyd", "   ", "!!";
    SpacedParts(spaced, pink, gap, floyd, bang);
    CapitalWord(pink, 'P', 'p', "ink");
    CapitalWord(floyd, 'F', 'f', "loyd");
    SlugifyTwoWords(pink, gap, floyd, bang);
    LowerJoin(Lower(pink), Lower(floyd));
  }

  lemma SpacedParts(spaced: string, pink: string, gap: string, floyd: string, bang: string)
    requires spaced == "Pink   Floyd!!"
    requires pink == "Pink" && gap == "   " && floyd == "Floyd" && bang == "!!"
    ensures spaced == pink + gap + floyd + bang
    ensures AllSeparators(gap) && AllDisallowed(bang)
  {
  }

  /** A capitalised ASCII word lowers to its first letter lowered and the rest unchanged. */
  lemma CapitalWord(w: string, c: char, lc: char, rest: string)
    requires 'A' <= c <= 'Z' && lc as int == c as int + 32
    requires w == [c] + rest && AllWord(rest) && NoUpper(rest)
    ensures AllWord(w) && Lower(w) == [lc] + rest
  {
    LowerAppend([c], rest);
    LowerIdentity(rest);
  }

  lemma LowerJoin(pink: string, floyd: string)
    requires pink == ['p'] + "ink" && floyd == ['f'] + "loyd"
    ensures pink + "_" + floyd == "pink_floyd"
  {
  }

  lemma SlugifyHyphenated(hyphenated: string)
    requires hyphenated == "pink-floyd"
    ensures Slugify(hyphenated) == "pink_floyd"
  {
    var pink, floyd, dash := "pink", "floyd", "-";
    HyphenatedParts(hyphenated, pink, dash, floyd);
    LowerIdentity(pink);
    LowerIdentity(floyd);
    SlugifyTwoWords(pink, dash, floyd, []);
    LowerJoin(pink, floyd);
  }

  lemma HyphenatedParts(hyphenated: string, pink: string, dash: string, floyd: string)
    requires hyphenated == "pink-floyd" && pink == "pink" && dash == "-" && floyd == "floyd"
    ensures hyphenated == pink + dash + floyd + []
    ensures AllWord(pink) && AllWord(floyd) && AllSeparators(dash)
  {
  }

  /** `generate_uri`: the prefixed name `imkb:<type>_<slug>`. */
  function GenerateUri(entityType: string, name: string): string {
    "imkb:" + entityType + "_" + Slugify(name)
  }

  /** Two URIs of types without `_` are equal exactly when they have the same
      type and the names have the same slug. */
  lemma GenerateUriEqual(t1: string, n1: string, t2: string, n2: string)
    requires '_' !in t1 && '_' !in t2
    ensures GenerateUri(t1, n1) == GenerateUri(t2, n2) <==> t1 == t2 && Slugify(n1) == Slugify(n2)
  {
    var u1, u2 := GenerateUri(t1, n1), GenerateUri(t2, n2);
    if |t1| < |t2| {
      assert u1[5 + |t1|] == '_' && u2[5 + |t1|] == t2[|t1|];
    } else if |t2| < |t1| {
      assert u2[5 + |t2|] == '_' && u1[5 + |t2|] == t1[|t2|];
    } else if u1 == u2 {
      assert t1 == u1[5..5 + |t1|] == u2[5..5 + |t2|] == t2;
      assert Slugify(n1) == u1[6 + |t1|..] == u2[6 + |t2|..] == Slugify(n2);
    }
  }

  /** The slug of `a + "_" + s`, for a name `a` with no whitespace at either
      end, is the slug of `a`, an `_`, and a part that depends on `s` alone. */
  lemma SlugifyJoined(a: string, s: string)
    requires Strip(a) == a
    ensures Slugify(a + "_" + s) == Slugify(a) + "_" + CollapseSeparators(DeleteDisallowed(Lower(TrimRight(s))))
  {
    var t := TrimRight(s);
    JoinedStrip(a, s);
    var la, lt := Lower(a), Lower(t);
    JoinedLower(a, t);
    var da, dt := DeleteDisallowed(la), DeleteDisallowed(lt);
    JoinedDelete(la, lt);
    JoinedCollapse(da, dt);
  }

  lemma JoinedStrip(a: string, s: string)
    requires Strip(a) == a
    ensures Strip(a + "_" + s) == a + "_" + TrimRight(s)
  {
    var joined := a + "_" + s;
    StripFixed(a);
    assert joined[0] == if a == [] then '_' else a[0];
    LeadingSpacesUnique(joined, 0);
    TrimRightAppend(a + "_", s);
  }

  lemma JoinedLower(a: string, t: string)
    ensures Lower(a + "_" + t) == Lower(a) + "_" + Lower(t)
  {
    LowerAppend(a + "_", t);
    LowerAppend(a, "_");
  }

  lemma JoinedDelete(la: string, lt: string)
    ensures DeleteDisallowed(la + "_" + lt) == DeleteDisallowed(la) + ("_" + DeleteDisallowed(lt))
  {
    AppendAssoc(la, "_", lt);
    DeleteDisallowedAppend(la, "_" + lt);
    DeleteDisallowedAppend("_", lt);
  }

  lemma JoinedCollapse(da: string, dt: string)
    ensures CollapseSeparators(da + ("_" + dt)) == CollapseSeparators(da) + "_" + CollapseSeparators(dt)
  {
    CollapseAppend(da, "_" + dt);
    CollapseAppend("_", dt);
    AppendAssoc(CollapseSeparators(da), "_", CollapseSeparators(dt));
  }

  /** Two names with no whitespace at either end and different slugs keep
      different slugs when the same text is joined to both with `_`. */
  lemma SlugifyJoinedDistinct(a1: string, a2: string, s: string)
    requires Strip(a1) == a1 && Strip(a2) == a2
    requires Slugify(a1) != Slugify(a2)
    ensures Slugify(a1 + "_" + s) != Slugify(a2 + "_" + s)
  {
    var rest := CollapseSeparators(DeleteDisallowed(Lower(TrimRight(s))));
    SlugifyJoined(a1, s);
    SlugifyJoined(a2, s);
    AppendAssoc(Slugify(a1), "_", rest);
    AppendAssoc(Slugify(a2), "_", rest);
    if Slugify(a1) + ("_" + rest) == Slugify(a2) + ("_" + rest) {
      SuffixCancel(Slugify(a1), Slugify(a2), "_" + rest);
    }
  }

  lemma SuffixCancel<T>(x: seq<T>, y: seq<T>, z: seq<T>)
    requires x + z == y + z
    ensures x == y
  {
    assert x == (x + z)[..|x|];
  }
}
