/**
  How `export` (unwebarchive.rb) turns a resource's `WebResourceURL` into
  the name of the file it is written to:

    - if a line of the locator begins with `file:` (Ruby's `^` matches at
      the start of every line), the name is the locator with its first
      `file:///` removed;
    - else if a line begins with `http`, the name is the locator with the
      match of `^http.*://` removed; `.*` is greedy and does not cross a
      newline, so everything up to the LAST `://` of that line goes;
    - otherwise the resource is skipped.
*/
module Locator {
  import opened Text

  const FILE_SCHEME: string := "file:"
  const FILE_TRIPLE: string := "file:///"
  const HTTP: string := "http"
  const SCHEME_SEP: string := "://"

  /** `k` is the start of a line of `s`: where Ruby's `^` can match. */
  predicate LineStart(s: string, k: int) {
    k == 0 || (0 < k <= |s| && s[k - 1] == '\n')
  }

  /** `s =~ /^w/` for a literal `w`. */
  ghost predicate BeginsLine(s: string, w: string) {
    exists k :: LineStart(s, k) && At(s, k, w)
  }

  /** The first line start at or after `from` where `w` occurs. */
  function FirstLineWith(s: string, w: string, from: nat): (r: Option<nat>)
    requires from <= |s|
    ensures r.Some? ==> from <= r.value && LineStart(s, r.value) && At(s, r.value, w)
    ensures forall k :: from <= k && LineStart(s, k) && At(s, k, w) ==> r.Some? && r.value <= k
    decreases |s| - from
  {
    if LineStart(s, from) && At(s, from, w) then Some(from)
    else if from == |s| then None
    else FirstLineWith(s, w, from + 1)
  }

  /** `s[k..e]` is matched by `^http.*://`, with the `://` at `q`. */
  predicate HttpSplit(s: string, k: int, q: int, e: int) {
    && LineStart(s, k)
    && At(s, k, HTTP)
    && At(s, q, SCHEME_SEP)
    && Avoids(s, k + |HTTP|, q, {'\n'})
    && e == q + |SCHEME_SEP|
  }

  ghost predicate HttpMatch(s: string, k: int, e: int) {
    exists q :: HttpSplit(s, k, q, e)
  }

  /** A match never runs past the end of its line. */
  lemma HttpMatchWithinLine(s: string, k: nat)
    requires At(s, k, HTTP)
    ensures forall q, e :: HttpSplit(s, k, q, e) ==> e <= RunEnd(s, k + |HTTP|, {'\n'})
  {
    forall q, e | HttpSplit(s, k, q, e) ensures e <= RunEnd(s, k + |HTTP|, {'\n'}) {
      forall j | k + |HTTP| <= j < e ensures s[j] != '\n' {
        if q <= j {
          assert s[j] == s[q..q + |SCHEME_SEP|][j - q];
        }
      }
    }
  }

  /** The end of the match the greedy `.*` selects at `k` (the longest one), if any. */
  function HttpMatchAt(s: string, k: nat): (r: Option<nat>)
    requires k <= |s|
    ensures r.Some? ==> k < r.value <= |s| && HttpMatch(s, k, r.value)
    ensures forall e :: HttpMatch(s, k, e) ==> r.Some? && e <= r.value
  {
    if !(LineStart(s, k) && At(s, k, HTTP)) then None
    else
      HttpMatchWithinLine(s, k);
      var run := RunEnd(s, k + |HTTP|, {'\n'});
      match LastAt(s, SCHEME_SEP, k + |HTTP|, run)
      case None => None
      case Some(q) =>
        assert HttpSplit(s, k, q, q + |SCHEME_SEP|);
        Some(q + |SCHEME_SEP|)
  }

  /** The leftmost start at or after `from` where `^http.*://` matches, with
      the end of the match selected there. */
  function HttpSearch(s: string, from: nat): (r: Option<(nat, nat)>)
    requires from <= |s|
    ensures r.Some? ==> from <= r.value.0 && HttpMatch(s, r.value.0, r.value.1)
    ensures r.Some? ==> r.value.0 < r.value.1 <= |s|
    ensures r.Some? ==> forall e :: HttpMatch(s, r.value.0, e) ==> e <= r.value.1
    ensures r.Some? ==> forall k, e :: from <= k < r.value.0 ==> !HttpMatch(s, k, e)
    ensures r.None? ==> forall k, e :: from <= k ==> !HttpMatch(s, k, e)
    decreases |s| - from
  {
    match HttpMatchAt(s, from)
    case Some(e) => Some((from, e))
    case None => if from == |s| then None else HttpSearch(s, from + 1)
  }

  /** `s.sub(/^http.*:\/\//, '')`. */
  function StripHttpPrefix(s: string): string {
    match HttpSearch(s, 0)
    case None => s
    case Some((k, e)) => s[..k] + s[e..]
  }

  /**
    The name `export` writes a resource under, or None when it skips it.
    A locator is skipped exactly when none of its lines begins with `file:`
    or `http`.
  */
  function ExportName(locator: string): (r: Option<string>)
    ensures r.None? <==> !BeginsLine(locator, FILE_SCHEME) && !BeginsLine(locator, HTTP)
  {
    if FirstLineWith(locator, FILE_SCHEME, 0).Some? then Some(SubFirst(locator, FILE_TRIPLE, ""))
    else if FirstLineWith(locator, HTTP, 0).Some? then Some(StripHttpPrefix(locator))
    else None
  }

  /** A locator beginning with `file:///` is named by what follows that
      prefix, whatever it holds (an `http` line after it included). */
  lemma FileLocatorName(rest: string)
    ensures ExportName(FILE_TRIPLE + rest) == Some(rest)
  {
    var l := FILE_TRIPLE + rest;
    assert l[..8] == FILE_TRIPLE;
    assert At(l, 0, FILE_SCHEME) by { assert l[0..5] == FILE_SCHEME; }
    assert At(l, 0, FILE_TRIPLE) by { assert l[0..8] == FILE_TRIPLE; }
    assert FirstLineWith(l, FILE_SCHEME, 0) == Some(0);
    SubFirstAtStart(l, FILE_TRIPLE, "");
    assert SubFirst(l, FILE_TRIPLE, "") == l[|FILE_TRIPLE|..];
    assert l[|FILE_TRIPLE|..] == rest;
    assert ExportName(l) == Some(SubFirst(l, FILE_TRIPLE, ""));
  }

  /** In a locator without newlines only index 0 starts a line. */
  lemma SingleLine(l: string)
    requires forall j :: 0 <= j < |l| ==> l[j] != '\n'
    ensures forall k :: LineStart(l, k) <==> k == 0
  {
  }

  /** A one-line `http` locator is named by what follows its LAST `://`
      (the greedy `.*`), e.g. `http://a/?u=https://b/x` becomes `b/x`. */
  lemma HttpLocatorName(l: string, q: nat)
    requires forall j :: 0 <= j < |l| ==> l[j] != '\n'
    requires At(l, 0, HTTP) && |HTTP| <= q && At(l, q, SCHEME_SEP)
    requires forall q' :: q < q' ==> !At(l, q', SCHEME_SEP)
    ensures ExportName(l) == Some(l[q + |SCHEME_SEP|..])
  {
    SingleLine(l);
    assert l[0] == 'h';
    assert !At(l, 0, FILE_SCHEME) by { assert FILE_SCHEME[0] == 'f'; }
    assert FirstLineWith(l, FILE_SCHEME, 0).None?;
    assert FirstLineWith(l, HTTP, 0) == Some(0);
    assert HttpSplit(l, 0, q, q + |SCHEME_SEP|);
    var r := HttpSearch(l, 0);
    assert r.Some? && r.value.0 == 0;
    var e := r.value.1;
    assert e == q + |SCHEME_SEP| by {
      var q' :| HttpSplit(l, 0, q', e);
    }
    assert l[..0] + l[e..] == l[e..];
    assert StripHttpPrefix(l) == l[e..];
  }

  /** No `://` can start after index `q` when no `:` does. */
  lemma NoSchemeSepAfter(l: string, q: nat)
    requires forall j :: q < j < |l| ==> l[j] != ':'
    ensures forall q' :: q < q' ==> !At(l, q', SCHEME_SEP)
  {
    forall q' | q < q' && q' + |SCHEME_SEP| <= |l| ensures !At(l, q', SCHEME_SEP) {
      assert l[q'..q' + |SCHEME_SEP|][0] == l[q'];
    }
  }

  /** A one-line `http` locator with no `://` after its `http` keeps its
      whole text as its name. */
  lemma HttpLocatorWithoutSep(l: string)
    requires forall j :: 0 <= j < |l| ==> l[j] != '\n'
    requires At(l, 0, HTTP)
    requires forall q :: |HTTP| <= q ==> !At(l, q, SCHEME_SEP)
    ensures ExportName(l) == Some(l)
  {
    SingleLine(l);
    assert l[0] == 'h';
    assert !At(l, 0, FILE_SCHEME) by { assert FILE_SCHEME[0] == 'f'; }
    assert FirstLineWith(l, FILE_SCHEME, 0).None?;
    assert FirstLineWith(l, HTTP, 0) == Some(0);
    assert HttpSearch(l, 0).None?;
  }

  /** A one-line locator beginning with neither `file:` nor `http` (an
      `ftp://` one, say) is skipped. */
  lemma OtherLocatorSkipped(l: string)
    requires forall j :: 0 <= j < |l| ==> l[j] != '\n'
    requires !At(l, 0, FILE_SCHEME) && !At(l, 0, HTTP)
    ensures ExportName(l).None?
  {
    SingleLine(l);
  }

  /** The greedy `.*` reaches past an embedded URL's own `://`. */
  lemma ExampleEmbeddedUrl()
    ensures ExportName("http://a/?u=https://b/x") == Some("b/x")
  {
    var l := "http://a/?u=https://b/x";
    assert l[..4] == HTTP;
    assert l[17..20] == SCHEME_SEP;
    NoSchemeSepAfter(l, 17);
    HttpLocatorName(l, 17);
    assert l[20..] == "b/x";
  }

  /** For an ordinary `http://host/path` locator the host stays part of the
      name: `http://example.com/a.png` is written as `example.com/a.png`. */
  lemma HostKeptInName(rest: string)
    requires forall j :: 0 <= j < |rest| ==> rest[j] != ':' && rest[j] != '\n'
    ensures ExportName("http://" + rest) == Some(rest)
  {
    var l := "http://" + rest;
    assert l[..4] == HTTP && l[4..7] == SCHEME_SEP && l[7..] == rest;
    forall j | 0 <= j < |l| ensures l[j] != '\n' && (4 < j ==> l[j] != ':') {
      if j >= 7 {
        assert l[j] == rest[j - 7];
      }
    }
    NoSchemeSepAfter(l, 4);
    HttpLocatorName(l, 4);
  }

  /** No path check is made: a `file:` locator climbing out of the export
      directory is named by its climbing path. */
  lemma ExampleParentPathKept()
    ensures ExportName(FILE_TRIPLE + "../../etc/passwd") == Some("../../etc/passwd")
  {
    FileLocatorName("../../etc/passwd");
  }

  /** An `ftp` locator is skipped. */
  lemma ExampleFtpSkipped()
    ensures ExportName("ftp://host/x").None?
  {
    var f := "ftp://host/x";
    assert f[1] != FILE_SCHEME[1] && f[0] != HTTP[0];
    assert !At(f, 0, FILE_SCHEME) by { assert f[0..5][1] == f[1]; }
    assert !At(f, 0, HTTP) by { assert f[0..4][0] == f[0]; }
    OtherLocatorSkipped(f);
  }
}
