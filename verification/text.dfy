/**
  Sequence helpers shared by the byte-level rewriting and the locator
  handling: where a literal occurs, how far a negated character class such
  as `[^=]*` can run, and literal substitution in the style of Ruby's
  `String#gsub` (every leftmost, non-overlapping occurrence) and
  `String#sub` (the first occurrence only).
*/
module Text {

  datatype Option<T> = None | Some(value: T)

  /** `w` occurs in `s` starting at index `k`. */
  predicate At<T(==)>(s: seq<T>, k: int, w: seq<T>) {
    0 <= k && k + |w| <= |s| && s[k..k + |w|] == w
  }

  /** `w` occurs somewhere in `s`. */
  ghost predicate Contains<T>(s: seq<T>, w: seq<T>) {
    exists k :: At(s, k, w)
  }

  /** No element of `s[lo..hi]` is in `stops`, i.e. `[^stops]*` matches that slice. */
  predicate Avoids<T(==)>(s: seq<T>, lo: int, hi: int, stops: set<T>) {
    0 <= lo <= hi <= |s| && forall k :: lo <= k < hi ==> s[k] !in stops
  }

  /** Where a run of `[^stops]*` starting at `k` must end: the first index at
      or after `k` that holds a stop element, or the end of `s`. */
  function RunEnd<T(==)>(s: seq<T>, k: nat, stops: set<T>): (e: nat)
    requires k <= |s|
    ensures k <= e <= |s| && Avoids(s, k, e, stops)
    ensures e < |s| ==> s[e] in stops
    decreases |s| - k
  {
    if k == |s| || s[k] in stops then k else RunEnd(s, k + 1, stops)
  }

  /** The leftmost occurrence of `w` lying inside `s[lo..hi]`. */
  function FirstAt<T(==)>(s: seq<T>, w: seq<T>, lo: nat, hi: nat): (r: Option<nat>)
    requires 0 < |w| && lo <= hi <= |s|
    ensures r.Some? ==> lo <= r.value && r.value + |w| <= hi && At(s, r.value, w)
    ensures r.Some? ==> forall p :: lo <= p < r.value ==> !At(s, p, w)
    ensures forall p :: lo <= p && p + |w| <= hi && At(s, p, w) ==> r.Some? && r.value <= p
    decreases hi - lo
  {
    if hi < lo + |w| then None
    else if At(s, lo, w) then Some(lo)
    else FirstAt(s, w, lo + 1, hi)
  }

  /** The rightmost occurrence of `w` lying inside `s[lo..hi]`. */
  function LastAt<T(==)>(s: seq<T>, w: seq<T>, lo: nat, hi: nat): (r: Option<nat>)
    requires 0 < |w| && lo <= hi <= |s|
    ensures r.Some? ==> lo <= r.value && r.value + |w| <= hi && At(s, r.value, w)
    ensures forall q :: lo <= q && q + |w| <= hi && At(s, q, w) ==> r.Some? && q <= r.value
    decreases hi
  {
    if hi < lo + |w| then None
    else if At(s, hi - |w|, w) then Some(hi - |w|)
    else LastAt(s, w, lo, hi - 1)
  }

  /** `s[i..]` with every leftmost, non-overlapping occurrence of `pat`
      replaced by `repl` (`gsub` with a literal pattern). */
  function ReplaceFrom<T(==)>(s: seq<T>, i: nat, pat: seq<T>, repl: seq<T>): seq<T>
    requires 0 < |pat| && i <= |s|
    decreases |s| - i
  {
    if i == |s| then []
    else if At(s, i, pat) then repl + ReplaceFrom(s, i + |pat|, pat, repl)
    else [s[i]] + ReplaceFrom(s, i + 1, pat, repl)
  }

  function ReplaceAll<T(==)>(s: seq<T>, pat: seq<T>, repl: seq<T>): seq<T>
    requires 0 < |pat|
  {
    ReplaceFrom(s, 0, pat, repl)
  }

  /** `s` with its first occurrence of `pat` replaced by `repl` (`sub` with a literal pattern). */
  function SubFirst<T(==)>(s: seq<T>, pat: seq<T>, repl: seq<T>): seq<T>
    requires 0 < |pat|
  {
    match FirstAt(s, pat, 0, |s|)
    case None => s
    case Some(k) => s[..k] + repl + s[k + |pat|..]
  }

  /** `sub` on a string that begins with the pattern replaces exactly that prefix. */
  lemma SubFirstAtStart<T>(s: seq<T>, pat: seq<T>, repl: seq<T>)
    requires 0 < |pat| && At(s, 0, pat)
    ensures SubFirst(s, pat, repl) == repl + s[|pat|..]
  {
    assert FirstAt(s, pat, 0, |s|) == Some(0);
  }

  /** `sub` on a string that does not contain the pattern changes nothing. */
  lemma SubFirstAbsent<T>(s: seq<T>, pat: seq<T>, repl: seq<T>)
    requires 0 < |pat| && !Contains(s, pat)
    ensures SubFirst(s, pat, repl) == s
  {
  }

  /** The pieces of `s[i..]` between the leftmost, non-overlapping
      occurrences of `pat` (the text that substitution keeps). */
  function SplitFrom<T(==)>(s: seq<T>, i: nat, pat: seq<T>): (segs: seq<seq<T>>)
    requires 0 < |pat| && i <= |s|
    ensures 0 < |segs| && i + |segs[0]| <= |s|
    ensures segs[0] == s[i..i + |segs[0]|]
    ensures forall m :: i <= m < i + |segs[0]| ==> !At(s, m, pat)
    decreases |s| - i
  {
    if i == |s| then [[]]
    else if At(s, i, pat) then [[]] + SplitFrom(s, i + |pat|, pat)
    else
      var rest := SplitFrom(s, i + 1, pat);
      [[s[i]] + rest[0]] + rest[1..]
  }

  /** The pieces `segs` glued together with `sep` between neighbours. */
  function Join<T>(segs: seq<seq<T>>, sep: seq<T>): seq<T>
    requires 0 < |segs|
    decreases |segs|
  {
    if |segs| == 1 then segs[0] else segs[0] + sep + Join(segs[1..], sep)
  }

  lemma JoinCons<T>(c: T, segs: seq<seq<T>>, sep: seq<T>)
    requires 0 < |segs|
    ensures Join([[c] + segs[0]] + segs[1..], sep) == [c] + Join(segs, sep)
  {
    var segs' := [[c] + segs[0]] + segs[1..];
    assert segs'[1..] == segs[1..];
  }

  lemma JoinEmptyHead<T>(segs: seq<seq<T>>, sep: seq<T>)
    requires 0 < |segs|
    ensures Join([[]] + segs, sep) == sep + Join(segs, sep)
  {
    assert ([[]] + segs)[1..] == segs;
  }

  /** Literal substitution keeps every piece between occurrences, in order,
      and puts `repl` where each occurrence was. */
  lemma {:induction false} ReplaceIsJoinOfSplit<T>(s: seq<T>, i: nat, pat: seq<T>, repl: seq<T>)
    requires 0 < |pat| && i <= |s|
    ensures ReplaceFrom(s, i, pat, repl) == Join(SplitFrom(s, i, pat), repl)
    decreases |s| - i
  {
    if i == |s| {
    } else if At(s, i, pat) {
      var rest := SplitFrom(s, i + |pat|, pat);
      assert SplitFrom(s, i, pat) == [[]] + rest;
      assert ReplaceFrom(s, i, pat, repl) == repl + ReplaceFrom(s, i + |pat|, pat, repl);
      ReplaceIsJoinOfSplit(s, i + |pat|, pat, repl);
      JoinEmptyHead(rest, repl);
    } else {
      var rest := SplitFrom(s, i + 1, pat);
      assert SplitFrom(s, i, pat) == [[s[i]] + rest[0]] + rest[1..];
      assert ReplaceFrom(s, i, pat, repl) == [s[i]] + ReplaceFrom(s, i + 1, pat, repl);
      ReplaceIsJoinOfSplit(s, i + 1, pat, repl);
      JoinCons(s[i], rest, repl);
    }
  }

  /** Replacing each occurrence by itself gives back the input. */
  lemma {:induction false} ReplaceBySelf<T>(s: seq<T>, i: nat, pat: seq<T>)
    requires 0 < |pat| && i <= |s|
    ensures ReplaceFrom(s, i, pat, pat) == s[i..]
    decreases |s| - i
  {
    if i == |s| {
    } else if At(s, i, pat) {
      ReplaceBySelf(s, i + |pat|, pat);
      assert s[i..] == s[i..i + |pat|] + s[i + |pat|..];
    } else {
      ReplaceBySelf(s, i + 1, pat);
      assert s[i..] == [s[i]] + s[i + 1..];
    }
  }

  /** Splitting on `pat` and joining with `pat` again gives back the input. */
  lemma SplitJoinRoundTrip<T>(s: seq<T>, pat: seq<T>)
    requires 0 < |pat|
    ensures Join(SplitFrom(s, 0, pat), pat) == s
  {
    ReplaceBySelf(s, 0, pat);
    ReplaceIsJoinOfSplit(s, 0, pat, pat);
  }

  /** No piece produced by `SplitFrom` contains the separator. */
  lemma {:induction false} SplitPiecesAvoidPattern<T>(s: seq<T>, i: nat, pat: seq<T>)
    requires 0 < |pat| && i <= |s|
    ensures forall j, m :: 0 <= j < |SplitFrom(s, i, pat)| ==> !At(SplitFrom(s, i, pat)[j], m, pat)
    decreases |s| - i
  {
    var segs := SplitFrom(s, i, pat);
    FirstPieceAvoidsPattern(s, i, pat);
    if i < |s| && At(s, i, pat) {
      var rest := SplitFrom(s, i + |pat|, pat);
      SplitPiecesAvoidPattern(s, i + |pat|, pat);
      assert segs == [[]] + rest;
      assert forall j :: 1 <= j < |segs| ==> segs[j] == rest[j - 1];
    } else if i < |s| {
      var rest := SplitFrom(s, i + 1, pat);
      SplitPiecesAvoidPattern(s, i + 1, pat);
      assert forall j :: 1 <= j < |segs| ==> segs[j] == rest[j];
    }
  }

  /** The first piece holds no occurrence of the separator. */
  lemma FirstPieceAvoidsPattern<T>(s: seq<T>, i: nat, pat: seq<T>)
    requires 0 < |pat| && i <= |s|
    ensures forall m :: !At(SplitFrom(s, i, pat)[0], m, pat)
  {
    var segs := SplitFrom(s, i, pat);
    var seg := segs[0];
    assert seg == s[i..i + |seg|];
    assert forall p :: i <= p < i + |seg| ==> !At(s, p, pat);
    forall m | 0 <= m && m + |pat| <= |seg| ensures !At(seg, m, pat) {
      SliceOfSlice(s, i, i + |seg|, m, m + |pat|);
      assert !At(s, i + m, pat);
    }
  }

  lemma SliceOfSlice<T>(s: seq<T>, lo: nat, hi: nat, a: nat, b: nat)
    requires lo <= hi <= |s| && a <= b <= hi - lo
    ensures s[lo..hi][a..b] == s[lo + a..lo + b]
  {
    forall k | 0 <= k < b - a ensures s[lo..hi][a..b][k] == s[lo + a..lo + b][k] {
      assert s[lo..hi][a + k] == s[lo + a + k];
    }
  }

  /** `a` is obtained from `b` by deleting elements. */
  ghost predicate Subsequence<T>(a: seq<T>, b: seq<T>)
    decreases |b|
  {
    if b == [] then a == []
    else (a != [] && a[0] == b[0] && Subsequence(a[1..], b[1..])) || Subsequence(a, b[1..])
  }

  lemma {:induction false} SubsequenceLength<T>(a: seq<T>, b: seq<T>)
    requires Subsequence(a, b)
    ensures |a| <= |b|
    decreases |b|
  {
    if b != [] {
      if a != [] && a[0] == b[0] && Subsequence(a[1..], b[1..]) {
        SubsequenceLength(a[1..], b[1..]);
      } else {
        SubsequenceLength(a, b[1..]);
      }
    }
  }

  lemma {:induction false} SubsequenceTransitive<T>(a: seq<T>, b: seq<T>, c: seq<T>)
    requires Subsequence(a, b) && Subsequence(b, c)
    ensures Subsequence(a, c)
    decreases |c|
  {
    if c == [] {
      assert b == [];
    } else if b != [] && b[0] == c[0] && Subsequence(b[1..], c[1..]) {
      if a != [] && a[0] == b[0] && Subsequence(a[1..], b[1..]) {
        SubsequenceTransitive(a[1..], b[1..], c[1..]);
      } else {
        SubsequenceTransitive(a, b[1..], c[1..]);
      }
    } else {
      SubsequenceTransitive(a, b, c[1..]);
    }
  }

  /** Keeping a prefix `w` of `s[i..]` and deleting up to `e`. */
  lemma KeepPrefixDropUpTo<T>(s: seq<T>, i: nat, e: nat, w: seq<T>, g: seq<T>)
    requires At(s, i, w) && i + |w| <= e <= |s| && Subsequence(g, s[e..])
    ensures Subsequence(w + g, s[i..])
  {
    assert s[i..] == w + s[i + |w|..e] + s[e..];
    SubsequenceInsert(w, g, s[i + |w|..e], s[e..]);
  }

  /** Keeping the element at `i`. */
  lemma KeepOne<T>(s: seq<T>, i: nat, g: seq<T>)
    requires i < |s| && Subsequence(g, s[i + 1..])
    ensures Subsequence([s[i]] + g, s[i..])
  {
    SubsequenceInsert([s[i]], g, [], s[i + 1..]);
    assert [s[i]] + [] + s[i + 1..] == s[i..];
  }

  /** Extra elements anywhere in the middle of the larger sequence are harmless. */
  lemma {:induction false} SubsequenceInsert<T>(w: seq<T>, a: seq<T>, x: seq<T>, b: seq<T>)
    requires Subsequence(a, b)
    ensures Subsequence(w + a, w + x + b)
    decreases |w| + |x|
  {
    if w != [] {
      SubsequenceInsert(w[1..], a, x, b);
      assert (w + a)[1..] == w[1..] + a;
      assert (w + x + b)[1..] == w[1..] + x + b;
    } else if x != [] {
      SubsequenceInsert(w, a, x[1..], b);
      assert w + a == a;
      assert (w + x + b)[1..] == w + x[1..] + b;
    } else {
      assert w + a == a && w + x + b == b;
    }
  }
}
