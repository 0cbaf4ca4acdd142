/**
  The byte-level substitutions of unwebarchive.rb: the `file:///` to `./`
  replacement applied to the main resource, and the four patterns of
  `fix_paths`, each of the shape

      opener [^stops]* http [^stops]* ://

  with its replacement:

      href="[^=]*http[^=]*://        ->  href="
      src="[^=]*http[^=]*://         ->  src="
      url\('[^\)]*http[^\)]*://      ->  url('../../
      url\([^'\)]*http[^'\)]*://     ->  url(../../

  Each pattern is modelled by an explicit scanner rather than a regular
  expression engine; its contract states which match Ruby's engine selects.
*/
module Rewrite {
  import opened Text

  newtype Byte = b: int | 0 <= b < 256

  const HTTP: seq<Byte> := [0x68, 0x74, 0x74, 0x70]              // http
  const SCHEME_SEP: seq<Byte> := [0x3A, 0x2F, 0x2F]              // ://
  const HREF: seq<Byte> := [0x68, 0x72, 0x65, 0x66, 0x3D, 0x22]  // href="
  const SRC: seq<Byte> := [0x73, 0x72, 0x63, 0x3D, 0x22]         // src="
  const URL_QUOTED: seq<Byte> := [0x75, 0x72, 0x6C, 0x28, 0x27]  // url('
  const URL_OPEN: seq<Byte> := [0x75, 0x72, 0x6C, 0x28]          // url(
  const UP_TWO: seq<Byte> := [0x2E, 0x2E, 0x2F, 0x2E, 0x2E, 0x2F] // ../../
  const FILE_TRIPLE: seq<Byte> := [0x66, 0x69, 0x6C, 0x65, 0x3A, 0x2F, 0x2F, 0x2F] // file:///
  const DOT_SLASH: seq<Byte> := [0x2E, 0x2F]                     // ./

  const EQUALS: Byte := 0x3D       // =
  const CLOSE_PAREN: Byte := 0x29  // )
  const QUOTE: Byte := 0x27        // '
  const COLON: Byte := 0x3A        // :
  const DOUBLE_QUOTE: Byte := 0x22 // "

  /** The pattern `opener [^stops]* http [^stops]* ://` and what each match becomes. */
  datatype Rule = Rule(opener: seq<Byte>, stops: set<Byte>, replacement: seq<Byte>)

  const HrefRule := Rule(HREF, {EQUALS}, HREF)
  const SrcRule := Rule(SRC, {EQUALS}, SRC)
  const UrlQuotedRule := Rule(URL_QUOTED, {CLOSE_PAREN}, URL_QUOTED + UP_TWO)
  const UrlBareRule := Rule(URL_OPEN, {QUOTE, CLOSE_PAREN}, URL_OPEN + UP_TWO)

  /** The literals `http` and `://` contain no stop byte, so they can sit
      inside a run of `[^stops]*` (true of all four rules). */
  predicate WellFormed(rule: Rule) {
    (forall k :: 0 <= k < |HTTP| ==> HTTP[k] !in rule.stops) &&
    (forall k :: 0 <= k < |SCHEME_SEP| ==> SCHEME_SEP[k] !in rule.stops)
  }

  lemma RulesWellFormed()
    ensures WellFormed(HrefRule) && WellFormed(SrcRule)
    ensures WellFormed(UrlQuotedRule) && WellFormed(UrlBareRule)
  {
  }

  /** `s[i..e]` is matched by the rule's pattern, with `http` at `p` and `://` at `q`. */
  predicate MatchSplit(s: seq<Byte>, i: int, rule: Rule, p: int, q: int, e: int) {
    && At(s, i, rule.opener)
    && At(s, p, HTTP)
    && At(s, q, SCHEME_SEP)
    && Avoids(s, i + |rule.opener|, p, rule.stops)
    && Avoids(s, p + |HTTP|, q, rule.stops)
    && e == q + |SCHEME_SEP|
  }

  /** `s[i..e]` belongs to the language of the rule's pattern. */
  ghost predicate Matches(s: seq<Byte>, i: int, rule: Rule, e: int) {
    exists p, q :: MatchSplit(s, i, rule, p, q, e)
  }

  /** Every byte of a match after the opener lies outside `stops`. */
  lemma MatchAvoidsStops(s: seq<Byte>, i: int, rule: Rule, p: int, q: int, e: int)
    requires WellFormed(rule) && MatchSplit(s, i, rule, p, q, e)
    ensures Avoids(s, i + |rule.opener|, e, rule.stops)
  {
    forall k | i + |rule.opener| <= k < e ensures s[k] !in rule.stops {
      if p <= k < p + |HTTP| {
        assert s[k] == s[p..p + |HTTP|][k - p];
      } else if q <= k {
        assert s[k] == s[q..q + |SCHEME_SEP|][k - q];
      }
    }
  }

  /** So every match ends inside the run of `[^stops]*` that follows the opener. */
  lemma MatchesWithinRun(s: seq<Byte>, i: nat, rule: Rule)
    requires WellFormed(rule) && At(s, i, rule.opener)
    ensures forall p, q, e :: MatchSplit(s, i, rule, p, q, e) ==> e <= RunEnd(s, i + |rule.opener|, rule.stops)
  {
    forall p, q, e | MatchSplit(s, i, rule, p, q, e)
      ensures e <= RunEnd(s, i + |rule.opener|, rule.stops)
    {
      MatchAvoidsStops(s, i, rule, p, q, e);
    }
  }

  /**
    The end of the match Ruby's engine selects at position `i`, if any.

    The engine tries the first `[^stops]*` greedily, so it prefers the
    rightmost `http`, and for that the second `[^stops]*` greedily, so the
    rightmost `://`. Because `http` and `://` never contain a stop byte, every
    match ends within the stop-free run after the opener; the rightmost
    `://` of that run preceded by some `http` is reached by the rightmost
    `http` too. So the selected match is the LONGEST one starting at `i`,
    which is what the contract says.
  */
  function MatchEnd(s: seq<Byte>, i: nat, rule: Rule): (r: Option<nat>)
    requires i <= |s| && WellFormed(rule)
    ensures r.Some? ==> i < r.value <= |s| && Matches(s, i, rule, r.value)
    ensures forall e :: Matches(s, i, rule, e) ==> r.Some? && e <= r.value
  {
    if !At(s, i, rule.opener) then None
    else
      var b := i + |rule.opener|;
      var run := RunEnd(s, b, rule.stops);
      MatchesWithinRun(s, i, rule);
      match LastAt(s, SCHEME_SEP, b, run)
      case None => None
      case Some(q) =>
        match FirstAt(s, HTTP, b, q)
        case None => None
        case Some(p) =>
          assert MatchSplit(s, i, rule, p, q, q + |SCHEME_SEP|);
          Some(q + |SCHEME_SEP|)
  }

  /** `gsub` of a rule over `s[i..]`: each selected match, scanning left to
      right and resuming after it, becomes the rule's replacement. */
  function GsubFrom(s: seq<Byte>, i: nat, rule: Rule): seq<Byte>
    requires i <= |s| && WellFormed(rule)
    decreases |s| - i
  {
    if i == |s| then []
    else match MatchEnd(s, i, rule)
      case Some(e) => rule.replacement + GsubFrom(s, e, rule)
      case None => [s[i]] + GsubFrom(s, i + 1, rule)
  }

  function Gsub(s: seq<Byte>, rule: Rule): seq<Byte>
    requires WellFormed(rule)
  {
    GsubFrom(s, 0, rule)
  }

  /** A match is at least as long as its opener, `http` and `://` together. */
  lemma MatchLength(s: seq<Byte>, i: int, rule: Rule, e: int)
    requires Matches(s, i, rule, e)
    ensures At(s, i, rule.opener)
    ensures i + |rule.opener| + |HTTP| + |SCHEME_SEP| <= e
  {
    var p, q :| MatchSplit(s, i, rule, p, q, e);
  }

  /** Text without `://` (from `i` on) is left exactly as it was. */
  lemma {:induction false} GsubWithoutSchemeSep(s: seq<Byte>, i: nat, rule: Rule)
    requires i <= |s| && WellFormed(rule)
    requires forall m :: i <= m ==> !At(s, m, SCHEME_SEP)
    ensures GsubFrom(s, i, rule) == s[i..]
    decreases |s| - i
  {
    if i < |s| {
      GsubWithoutSchemeSep(s, i + 1, rule);
      assert s[i..] == [s[i]] + s[i + 1..];
    }
  }

  /** A rule whose replacement is no longer than the shortest possible match
      never makes the text longer. */
  lemma {:induction false} GsubNotLonger(s: seq<Byte>, i: nat, rule: Rule)
    requires i <= |s| && WellFormed(rule)
    requires |rule.replacement| <= |rule.opener| + |HTTP| + |SCHEME_SEP|
    ensures |GsubFrom(s, i, rule)| <= |s| - i
    decreases |s| - i
  {
    if i < |s| {
      match MatchEnd(s, i, rule)
      case Some(e) =>
        MatchLength(s, i, rule, e);
        GsubNotLonger(s, e, rule);
      case None =>
        GsubNotLonger(s, i + 1, rule);
    }
  }

  /** A rule that replaces each match by its own opener only deletes bytes:
      the result is a subsequence of the input. */
  lemma {:induction false} GsubOnlyDeletes(s: seq<Byte>, i: nat, rule: Rule)
    requires i <= |s| && WellFormed(rule) && rule.replacement == rule.opener
    ensures Subsequence(GsubFrom(s, i, rule), s[i..])
    decreases |s| - i
  {
    if i == |s| {
    } else {
      match MatchEnd(s, i, rule)
      case Some(e) =>
        MatchLength(s, i, rule, e);
        GsubOnlyDeletes(s, e, rule);
        KeepPrefixDropUpTo(s, i, e, rule.opener, GsubFrom(s, e, rule));
      case None =>
        GsubOnlyDeletes(s, i + 1, rule);
        KeepOne(s, i, GsubFrom(s, i + 1, rule));
    }
  }

  /** The `.html` branch of `fix_paths`: both attribute rewrites, `href` first. */
  function HtmlRewrite(data: seq<Byte>): seq<Byte> {
    Gsub(Gsub(data, HrefRule), SrcRule)
  }

  /** The `.css` branch of `fix_paths`: the quoted `url('` form first. */
  function CssRewrite(data: seq<Byte>): seq<Byte> {
    Gsub(Gsub(data, UrlQuotedRule), UrlBareRule)
  }

  /** The HTML rewrite only deletes bytes, so it never lengthens the text,
      and it changes nothing in text that has no `://`. */
  lemma HtmlRewriteDeletes(data: seq<Byte>)
    ensures Subsequence(HtmlRewrite(data), data)
    ensures |HtmlRewrite(data)| <= |data|
    ensures !Contains(data, SCHEME_SEP) ==> HtmlRewrite(data) == data
  {
    var once := Gsub(data, HrefRule);
    GsubOnlyDeletes(data, 0, HrefRule);
    GsubOnlyDeletes(once, 0, SrcRule);
    assert data[0..] == data && once[0..] == once;
    SubsequenceTransitive(HtmlRewrite(data), once, data);
    SubsequenceLength(HtmlRewrite(data), data);
    if !Contains(data, SCHEME_SEP) {
      GsubWithoutSchemeSep(data, 0, HrefRule);
      GsubWithoutSchemeSep(once, 0, SrcRule);
    }
  }

  /** The CSS rewrite puts `../../` where a scheme and host were, which is
      never longer than the `http...://` it replaces; text without `://`
      is unchanged. */
  lemma CssRewriteShape(data: seq<Byte>)
    ensures |CssRewrite(data)| <= |data|
    ensures !Contains(data, SCHEME_SEP) ==> CssRewrite(data) == data
  {
    var once := Gsub(data, UrlQuotedRule);
    GsubNotLonger(data, 0, UrlQuotedRule);
    GsubNotLonger(once, 0, UrlBareRule);
    if !Contains(data, SCHEME_SEP) {
      GsubWithoutSchemeSep(data, 0, UrlQuotedRule);
      GsubWithoutSchemeSep(once, 0, UrlBareRule);
    }
  }

  /** No `://` starts in `s` at or after `i` when no `:` does. */
  lemma NoSchemeSepFrom(s: seq<Byte>, i: nat)
    requires forall k :: i <= k < |s| ==> s[k] != COLON
    ensures forall m :: i <= m ==> !At(s, m, SCHEME_SEP)
  {
    forall m | i <= m && m + |SCHEME_SEP| <= |s| ensures !At(s, m, SCHEME_SEP) {
      assert s[m..m + |SCHEME_SEP|][0] == s[m];
    }
  }

  /**
    A rule applied to `opener mid http:// rest`, where `mid` holds no stop
    byte and `rest` holds no `:`, replaces exactly `opener mid http://`:
    the host and path in `rest` are kept, whatever else `rest` holds.
  */
  lemma OriginMatch(rule: Rule, mid: seq<Byte>, rest: seq<Byte>)
    requires WellFormed(rule)
    requires forall k :: 0 <= k < |mid| ==> mid[k] !in rule.stops
    requires Lacks(rest, COLON)
    ensures Gsub(rule.opener + mid + HTTP + SCHEME_SEP + rest, rule) == rule.replacement + rest
  {
    var s := rule.opener + mid + HTTP + SCHEME_SEP + rest;
    var p := |rule.opener| + |mid|;
    var q := p + |HTTP|;
    var e := q + |SCHEME_SEP|;
    OriginShape(rule, mid, rest);
    MatchEndAtLastSep(s, rule, p, q);
    GsubWithoutSchemeSep(s, e, rule);
    assert Gsub(s, rule) == rule.replacement + GsubFrom(s, e, rule);
  }

  /** A match at 0 whose `://` is the last one in `s` is the one selected. */
  lemma MatchEndAtLastSep(s: seq<Byte>, rule: Rule, p: int, q: int)
    requires WellFormed(rule) && MatchSplit(s, 0, rule, p, q, q + |SCHEME_SEP|)
    requires forall m :: q < m ==> !At(s, m, SCHEME_SEP)
    ensures MatchEnd(s, 0, rule) == Some(q + |SCHEME_SEP|)
  {
    assert Matches(s, 0, rule, q + |SCHEME_SEP|);
    var r := MatchEnd(s, 0, rule);
    var p', q' :| MatchSplit(s, 0, rule, p', q', r.value);
  }

  /** In `opener mid http:// rest` the pattern matches from 0 to the end of
      `://`, and no later `://` exists. */
  lemma OriginShape(rule: Rule, mid: seq<Byte>, rest: seq<Byte>)
    requires WellFormed(rule)
    requires forall k :: 0 <= k < |mid| ==> mid[k] !in rule.stops
    requires Lacks(rest, COLON)
    ensures var s := rule.opener + mid + HTTP + SCHEME_SEP + rest;
      var p := |rule.opener| + |mid|;
      var q := p + |HTTP|;
      && MatchSplit(s, 0, rule, p, q, q + |SCHEME_SEP|)
      && (forall m :: q < m ==> !At(s, m, SCHEME_SEP))
      && s[q + |SCHEME_SEP|..] == rest
  {
    var s := rule.opener + mid + HTTP + SCHEME_SEP + rest;
    var o := |rule.opener|;
    var p := o + |mid|;
    var q := p + |HTTP|;
    var e := q + |SCHEME_SEP|;
    assert s[..o] == rule.opener && s[o..p] == mid && s[p..q] == HTTP && s[q..e] == SCHEME_SEP && s[e..] == rest;
    forall k | o <= k < p ensures s[k] !in rule.stops {
      assert s[k] == mid[k - o];
    }
    assert s[q + 1] == 0x2F && s[q + 2] == 0x2F;
    forall k | e <= k < |s| ensures s[k] != COLON {
      assert s[k] == rest[k - e];
    }
    NoSchemeSepFrom(s, e);
    forall m | q < m ensures !At(s, m, SCHEME_SEP) {
      if m < e && m + |SCHEME_SEP| <= |s| {
        assert s[m..m + |SCHEME_SEP|][0] == s[m];
      }
    }
  }

  /** No byte of `s` is `b`. */
  predicate Lacks(s: seq<Byte>, b: Byte) {
    forall k :: 0 <= k < |s| ==> s[k] != b
  }

  lemma LacksConcat(a: seq<Byte>, c: seq<Byte>, b: Byte)
    requires Lacks(a, b) && Lacks(c, b)
    ensures Lacks(a + c, b)
  {
    forall k | 0 <= k < |a + c| ensures (a + c)[k] != b {
      if k >= |a| {
        assert (a + c)[k] == c[k - |a|];
      }
    }
  }

  /** No rule changes text without a `:`. */
  lemma GsubColonFree(t: seq<Byte>, rule: Rule)
    requires WellFormed(rule) && Lacks(t, COLON)
    ensures Gsub(t, rule) == t
  {
    NoSchemeSepFrom(t, 0);
    GsubWithoutSchemeSep(t, 0, rule);
  }

  /** Text in which the rule's opener never occurs is left exactly as it was. */
  lemma {:induction false} GsubWithoutOpener(s: seq<Byte>, i: nat, rule: Rule)
    requires i <= |s| && WellFormed(rule)
    requires forall m :: i <= m ==> !At(s, m, rule.opener)
    ensures GsubFrom(s, i, rule) == s[i..]
    decreases |s| - i
  {
    if i < |s| {
      GsubWithoutOpener(s, i + 1, rule);
      assert s[i..] == [s[i]] + s[i + 1..];
    }
  }

  /** An absolute `href="http://host/path` keeps its host: the HTML
      rewrite deletes only `http://`, giving `href="host/path`. */
  lemma HrefOriginDropped(rest: seq<Byte>)
    requires Lacks(rest, COLON)
    ensures HtmlRewrite(HREF + HTTP + SCHEME_SEP + rest) == HREF + rest
  {
    assert HREF + [] == HREF;
    OriginMatch(HrefRule, [], rest);
    var once := HREF + rest;
    PrefixedColonFree(HREF, rest);
    RulesWellFormed();
    GsubColonFree(once, SrcRule);
  }

  /** A quoted `url('http://host/path` becomes `url('../../host/path`:
      the host is kept, two levels up. */
  lemma UrlOriginReplaced(rest: seq<Byte>)
    requires Lacks(rest, COLON)
    ensures CssRewrite(URL_QUOTED + HTTP + SCHEME_SEP + rest) == URL_QUOTED + UP_TWO + rest
  {
    UrlQuotedOrigin(rest);
    var once := URL_QUOTED + UP_TWO + rest;
    PrefixedColonFree(URL_QUOTED + UP_TWO, rest);
    RulesWellFormed();
    GsubColonFree(once, UrlBareRule);
  }

  /** The first CSS pass alone on a quoted `url('http://...`. */
  lemma UrlQuotedOrigin(rest: seq<Byte>)
    requires Lacks(rest, COLON)
    ensures Gsub(URL_QUOTED + HTTP + SCHEME_SEP + rest, UrlQuotedRule) == URL_QUOTED + UP_TWO + rest
  {
    var rule := UrlQuotedRule;
    assert rule.opener == URL_QUOTED && rule.replacement == URL_QUOTED + UP_TWO;
    assert URL_QUOTED + [] == URL_QUOTED;
    RulesWellFormed();
    OriginMatch(rule, [], rest);
  }

  /**
    An unquoted `url(` followed by `mid http://` becomes `url(../../`,
    provided neither `mid` nor the rest holds a `'` (so the first pass finds
    no `url('`) and `mid` holds no `)`: everything from the opener to the
    `://` goes.
  */
  lemma UrlOpenOrigin(mid: seq<Byte>, rest: seq<Byte>)
    requires Lacks(mid, QUOTE) && Lacks(mid, CLOSE_PAREN)
    requires Lacks(rest, QUOTE) && Lacks(rest, COLON)
    ensures CssRewrite(URL_OPEN + mid + HTTP + SCHEME_SEP + rest) == URL_OPEN + UP_TWO + rest
  {
    var s := URL_OPEN + mid + HTTP + SCHEME_SEP + rest;
    RulesWellFormed();
    UrlOpenFirstPass(mid, rest);
    assert Gsub(s, UrlQuotedRule) == s;
    var rule := UrlBareRule;
    assert rule.opener == URL_OPEN && rule.replacement == URL_OPEN + UP_TWO;
    assert forall k :: 0 <= k < |mid| ==> mid[k] !in rule.stops;
    OriginMatch(rule, mid, rest);
  }

  /** Without any `'` the quoted pattern finds nothing to replace. */
  lemma UrlOpenFirstPass(mid: seq<Byte>, rest: seq<Byte>)
    requires Lacks(mid, QUOTE) && Lacks(rest, QUOTE)
    ensures Gsub(URL_OPEN + mid + HTTP + SCHEME_SEP + rest, UrlQuotedRule) == URL_OPEN + mid + HTTP + SCHEME_SEP + rest
  {
    var s := URL_OPEN + mid + HTTP + SCHEME_SEP + rest;
    assert Lacks(URL_OPEN, QUOTE) && Lacks(HTTP + SCHEME_SEP, QUOTE);
    LacksConcat(URL_OPEN, mid, QUOTE);
    LacksConcat(HTTP + SCHEME_SEP, rest, QUOTE);
    LacksConcat(URL_OPEN + mid, HTTP + SCHEME_SEP + rest, QUOTE);
    assert s == (URL_OPEN + mid) + (HTTP + SCHEME_SEP + rest);
    NoQuotedOpener(s);
    RulesWellFormed();
    GsubWithoutOpener(s, 0, UrlQuotedRule);
    assert s[0..] == s;
  }

  /** `url('` cannot occur in text without a `'`. */
  lemma NoQuotedOpener(s: seq<Byte>)
    requires Lacks(s, QUOTE)
    ensures forall m :: !At(s, m, URL_QUOTED)
  {
    forall m | 0 <= m && m + |URL_QUOTED| <= |s| ensures !At(s, m, URL_QUOTED) {
      assert s[m..m + |URL_QUOTED|][4] == s[m + 4] != URL_QUOTED[4];
    }
  }

  /** An unquoted `url(http://host/path` becomes `url(../../host/path`. */
  lemma UrlBareOriginReplaced(rest: seq<Byte>)
    requires Lacks(rest, QUOTE) && Lacks(rest, COLON)
    ensures CssRewrite(URL_OPEN + HTTP + SCHEME_SEP + rest) == URL_OPEN + UP_TWO + rest
  {
    assert URL_OPEN + [] == URL_OPEN;
    UrlOpenOrigin([], rest);
  }

  /** The unquoted pattern lets `"` through: `url("http://host/x")` becomes
      `url(../../host/x")`, losing the opening quote but keeping the
      closing one. */
  lemma UrlDoubleQuotedLosesQuote(rest: seq<Byte>)
    requires Lacks(rest, QUOTE) && Lacks(rest, COLON)
    ensures CssRewrite(URL_OPEN + [DOUBLE_QUOTE] + HTTP + SCHEME_SEP + rest) == URL_OPEN + UP_TWO + rest
  {
    UrlOpenOrigin([DOUBLE_QUOTE], rest);
  }

  lemma PrefixedColonFree(prefix: seq<Byte>, rest: seq<Byte>)
    requires prefix == HREF || prefix == URL_QUOTED + UP_TWO
    requires Lacks(rest, COLON)
    ensures Lacks(prefix + rest, COLON)
  {
    assert Lacks(prefix, COLON);
    LacksConcat(prefix, rest, COLON);
  }

  // ----- the main resource: `data.gsub!(/file:\/\/\//, './')` -----

  /** The main resource's data with every `file:///` turned into `./`. */
  function LocalizeMain(data: seq<Byte>): seq<Byte> {
    ReplaceAll(data, FILE_TRIPLE, DOT_SLASH)
  }

  /** If the replaced text begins with `w`, and `w` has no `.`, then the
      original text began with `w` too: replacement text always starts with `.`. */
  lemma {:induction false} PrefixWithoutDotKept(s: seq<Byte>, j: nat, w: seq<Byte>)
    requires j <= |s|
    requires forall k :: 0 <= k < |w| ==> w[k] != 0x2E
    requires At(ReplaceFrom(s, j, FILE_TRIPLE, DOT_SLASH), 0, w)
    ensures At(s, j, w)
    decreases |w|
  {
    var out := ReplaceFrom(s, j, FILE_TRIPLE, DOT_SLASH);
    if w != [] {
      assert out[0] == w[0];
      assert j < |s| && !At(s, j, FILE_TRIPLE);
      var rest := ReplaceFrom(s, j + 1, FILE_TRIPLE, DOT_SLASH);
      assert out == [s[j]] + rest;
      assert rest[0..|w| - 1] == out[1..|w|];
      assert w[1..] == out[1..|w|];
      PrefixWithoutDotKept(s, j + 1, w[1..]);
      assert s[j..j + |w|] == [s[j]] + s[j + 1..j + 1 + |w[1..]|];
    }
  }

  /** After the replacement no `file:///` is left. */
  lemma {:induction false} NoFileTripleLeft(s: seq<Byte>, i: nat)
    requires i <= |s|
    ensures !Contains(ReplaceFrom(s, i, FILE_TRIPLE, DOT_SLASH), FILE_TRIPLE)
    decreases |s| - i
  {
    if i < |s| {
      if At(s, i, FILE_TRIPLE) {
        var rest := ReplaceFrom(s, i + |FILE_TRIPLE|, FILE_TRIPLE, DOT_SLASH);
        NoFileTripleLeft(s, i + |FILE_TRIPLE|);
        DotSlashNotTriple(rest);
        NoPatternAfterPrefix(DOT_SLASH, rest, FILE_TRIPLE);
      } else {
        var rest := ReplaceFrom(s, i + 1, FILE_TRIPLE, DOT_SLASH);
        NoFileTripleLeft(s, i + 1);
        KeptByteNotTriple(s, i);
        assert !At([s[i]] + rest, 0, FILE_TRIPLE);
        NoPatternAfterPrefix([s[i]], rest, FILE_TRIPLE);
      }
    }
  }

  /** A pattern absent from `rest` and starting nowhere in `pre` is absent
      from `pre + rest`. */
  lemma NoPatternAfterPrefix(pre: seq<Byte>, rest: seq<Byte>, w: seq<Byte>)
    requires !Contains(rest, w)
    requires forall m :: 0 <= m < |pre| ==> !At(pre + rest, m, w)
    ensures !Contains(pre + rest, w)
  {
    forall m | |pre| <= m && m + |w| <= |pre + rest| ensures !At(pre + rest, m, w) {
      assert (pre + rest)[m..m + |w|] == rest[m - |pre|..m - |pre| + |w|];
      assert !At(rest, m - |pre|, w);
    }
  }

  /** `file:///` cannot start inside the `./` put in place of one. */
  lemma DotSlashNotTriple(rest: seq<Byte>)
    ensures forall m :: 0 <= m < |DOT_SLASH| ==> !At(DOT_SLASH + rest, m, FILE_TRIPLE)
  {
    forall m | 0 <= m < |DOT_SLASH| ensures !At(DOT_SLASH + rest, m, FILE_TRIPLE) {
      assert (DOT_SLASH + rest)[m] == DOT_SLASH[m] != FILE_TRIPLE[0];
    }
  }

  /** A `file:///` at the head of the replaced text after a kept byte
      means one started at that byte in the original. */
  lemma KeptByteNotTriple(s: seq<Byte>, i: nat)
    requires i < |s|
    ensures At([s[i]] + ReplaceFrom(s, i + 1, FILE_TRIPLE, DOT_SLASH), 0, FILE_TRIPLE) ==> At(s, i, FILE_TRIPLE)
  {
    var rest := ReplaceFrom(s, i + 1, FILE_TRIPLE, DOT_SLASH);
    if At([s[i]] + rest, 0, FILE_TRIPLE) {
      AtAfterHead(s[i], rest, FILE_TRIPLE);
      TripleTailWithoutDot();
      PrefixWithoutDotKept(s, i + 1, FILE_TRIPLE[1..]);
      AtFromHead(s, i, FILE_TRIPLE);
    }
  }

  lemma TripleTailWithoutDot()
    ensures forall k :: 0 <= k < |FILE_TRIPLE[1..]| ==> FILE_TRIPLE[1..][k] != 0x2E
  {
  }

  /** A pattern at the head of `[x] + t` starts with `x`, and its tail heads `t`. */
  lemma AtAfterHead(x: Byte, t: seq<Byte>, w: seq<Byte>)
    requires 0 < |w| && At([x] + t, 0, w)
    ensures x == w[0] && At(t, 0, w[1..])
  {
    assert ([x] + t)[0..|w|][0] == x;
    assert t[0..|w| - 1] == ([x] + t)[1..|w|] == w[1..];
  }

  /** A pattern whose first element is at `i` and whose tail is at `i + 1` is at `i`. */
  lemma AtFromHead(s: seq<Byte>, i: nat, w: seq<Byte>)
    requires 0 < |w| && i < |s| && s[i] == w[0] && At(s, i + 1, w[1..])
    ensures At(s, i, w)
  {
    assert s[i..i + |w|] == [s[i]] + s[i + 1..i + |w|];
    assert w == [w[0]] + w[1..];
  }

  /** The replacement removes every `file:///`, keeps all other bytes in
      their order (the pieces between occurrences), and puts `./` where each
      occurrence was. */
  lemma LocalizeMainSpec(data: seq<Byte>)
    ensures !Contains(LocalizeMain(data), FILE_TRIPLE)
    ensures LocalizeMain(data) == Join(SplitFrom(data, 0, FILE_TRIPLE), DOT_SLASH)
    ensures Join(SplitFrom(data, 0, FILE_TRIPLE), FILE_TRIPLE) == data
    ensures forall j :: 0 <= j < |SplitFrom(data, 0, FILE_TRIPLE)| ==> !Contains(SplitFrom(data, 0, FILE_TRIPLE)[j], FILE_TRIPLE)
  {
    NoFileTripleLeft(data, 0);
    ReplaceIsJoinOfSplit(data, 0, FILE_TRIPLE, DOT_SLASH);
    SplitJoinRoundTrip(data, FILE_TRIPLE);
    SplitPiecesAvoidPattern(data, 0, FILE_TRIPLE);
  }
}
