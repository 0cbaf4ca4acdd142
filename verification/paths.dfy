/**
  The dispatch of `fix_paths` (unwebarchive.rb): which rewrite a written
  file's data gets is decided by `File.extname(name.split('?').first)`.
*/
module Paths {
  import opened Text
  import opened Rewrite

  /**
    `name.split('?').first`. Ruby's `split` drops trailing empty fields, so a
    name that is empty or made only of `?` splits into `[]`, and `first` is
    `nil` (None here); otherwise it is the text before the first `?`.
  */
  function FirstField(name: string): (r: Option<string>)
    ensures r.None? <==> forall k :: 0 <= k < |name| ==> name[k] == '?'
    ensures r.Some? ==> |r.value| <= |name| && r.value == name[..|r.value|]
    ensures r.Some? ==> forall k :: 0 <= k < |r.value| ==> r.value[k] != '?'
    ensures r.Some? && |r.value| < |name| ==> name[|r.value|] == '?'
  {
    if forall k :: 0 <= k < |name| ==> name[k] == '?' then None
    else Some(name[..RunEnd(name, 0, {'?'})])
  }

  /** The length of `path[..n]` once its trailing `/` characters are dropped. */
  function TrimmedLength(path: string, n: nat): (r: nat)
    requires n <= |path|
    ensures r <= n && (r > 0 ==> path[r - 1] != '/')
    ensures forall k :: r <= k < n ==> path[k] == '/'
  {
    if n > 0 && path[n - 1] == '/' then TrimmedLength(path, n - 1) else n
  }

  /** Where the last component of `path[..n]` starts: just after its last `/`. */
  function ComponentStart(path: string, n: nat): (j: nat)
    requires n <= |path|
    ensures j <= n && (j > 0 ==> path[j - 1] == '/')
    ensures forall k :: j <= k < n ==> path[k] != '/'
  {
    if n == 0 || path[n - 1] == '/' then n else ComponentStart(path, n - 1)
  }

  /** The first index at or after `j` in `path[..n]` that is not a dot. */
  function SkipDots(path: string, j: nat, n: nat): (m: nat)
    requires j <= n <= |path|
    ensures j <= m <= n && (m < n ==> path[m] != '.')
    ensures forall k :: j <= k < m ==> path[k] == '.'
    decreases n - j
  {
    if j < n && path[j] == '.' then SkipDots(path, j + 1, n) else j
  }

  /** The last index in `path[lo..hi]` holding `c`. */
  function LastIndexOf(path: string, c: char, lo: nat, hi: nat): (r: Option<nat>)
    requires lo <= hi <= |path|
    ensures r.Some? ==> lo <= r.value < hi && path[r.value] == c
    ensures r.Some? ==> forall k :: r.value < k < hi ==> path[k] != c
    ensures r.None? ==> forall k :: lo <= k < hi ==> path[k] != c
    decreases hi
  {
    if hi == lo then None
    else if path[hi - 1] == c then Some(hi - 1)
    else LastIndexOf(path, c, lo, hi - 1)
  }

  /**
    Ruby's `File.extname` on a POSIX system: trailing separators are
    ignored, the last component is taken, its leading dots are skipped and
    the extension runs from the last remaining dot to the end of the
    component (a name ending in a dot yields "."). The result is "" or a dot
    followed by text with no further dot and no `/`, and it is the tail of
    the path once trailing separators are dropped. It is empty exactly when
    the last component has no dot after its leading dots, and otherwise it
    starts at the last such dot.
  */
  function Extname(path: string): (ext: string)
    ensures ext == "" || (ext[0] == '.' && forall k :: 1 <= k < |ext| ==> ext[k] != '.' && ext[k] != '/')
    ensures |ext| <= TrimmedLength(path, |path|)
    ensures ext == path[TrimmedLength(path, |path|) - |ext|..TrimmedLength(path, |path|)]
    ensures var n := TrimmedLength(path, |path|);
      var m := SkipDots(path, ComponentStart(path, n), n);
      && (ext == "" <==> forall d :: m <= d < n ==> path[d] != '.')
      && (ext != "" ==> m <= n - |ext| && path[n - |ext|] == '.')
      && (ext != "" ==> forall d :: n - |ext| < d < n ==> path[d] != '.')
  {
    var n := TrimmedLength(path, |path|);
    var j := ComponentStart(path, n);
    var m := SkipDots(path, j, n);
    match LastIndexOf(path, '.', m, n)
    case None => ""
    case Some(d) => path[d..n]
  }

  /** A name `base.word`, where `base` ends in an ordinary character and
      `word` holds no dot and no slash, has the extension `.word`. */
  lemma ExtnameOfDotted(base: string, word: string)
    requires |base| > 0 && base[|base| - 1] != '/' && base[|base| - 1] != '.'
    requires |word| > 0 && forall k :: 0 <= k < |word| ==> word[k] != '.' && word[k] != '/'
    ensures Extname(base + "." + word) == "." + word
  {
    var p := base + "." + word;
    DottedShape(base, word);
    ExtnameAt(p, |base|);
  }

  /** A dot preceded by an ordinary character and followed by no dot and no
      slash starts the extension. */
  lemma ExtnameAt(p: string, d: nat)
    requires 0 < d < |p| && p[d] == '.' && p[d - 1] != '.' && p[d - 1] != '/'
    requires forall k :: d < k < |p| ==> p[k] != '.' && p[k] != '/'
    ensures Extname(p) == p[d..]
  {
    var n := TrimmedLength(p, |p|);
    assert n == |p|;
    ComponentStartBound(p, n, d - 1);
    var j := ComponentStart(p, n);
    SkipDotsBound(p, j, n, d - 1);
    var ext := Extname(p);
    assert ext != "";
    assert |p| - |ext| == d;
  }

  lemma ComponentStartBound(path: string, n: nat, lo: nat)
    requires lo <= n <= |path|
    requires forall k :: lo <= k < n ==> path[k] != '/'
    ensures ComponentStart(path, n) <= lo
  {
  }

  lemma SkipDotsBound(path: string, j: nat, n: nat, x: nat)
    requires j <= x < n <= |path| && path[x] != '.'
    ensures SkipDots(path, j, n) <= x
  {
  }

  /** Where the pieces of `base.word` sit. */
  lemma DottedShape(base: string, word: string)
    requires |base| > 0
    ensures var p := base + "." + word;
      && |p| == |base| + 1 + |word|
      && p[|base|] == '.' && p[|base| - 1] == base[|base| - 1]
      && (forall k :: |base| < k < |p| ==> p[k] == word[k - |base| - 1])
      && p[|base|..] == "." + word
  {
  }

  /** A last component whose only dot leads it, such as `.bashrc` or
      `dir/.profile`, has no extension; neither do `.` and `dir/.`. */
  lemma ExtnameOfHidden(dir: string, word: string)
    requires dir == "" || dir[|dir| - 1] == '/'
    requires forall k :: 0 <= k < |word| ==> word[k] != '.' && word[k] != '/'
    ensures Extname(dir + "." + word) == ""
  {
    var p := dir + "." + word;
    assert p[|dir|] == '.';
    forall k | |dir| < k < |p| ensures p[k] != '.' && p[k] != '/' {
      assert p[k] == word[k - |dir| - 1];
    }
    assert |p| > 0 && p[|p| - 1] != '/';
    var n := TrimmedLength(p, |p|);
    ComponentStartBound(p, n, |dir|);
    if |dir| > 0 {
      assert p[|dir| - 1] == dir[|dir| - 1];
    }
    var j := ComponentStart(p, n);
    assert j == |dir|;
  }

  /** A path with no dot at all has no extension. */
  lemma ExtnameWithoutDot(path: string)
    requires forall k :: 0 <= k < |path| ==> path[k] != '.'
    ensures Extname(path) == ""
  {
  }

  /** How `fix_paths` treats a file, by extension. */
  datatype Format = Html | Css | Exempted | Unlisted

  /** The extensions `fix_paths` names as exempt from path analysis. */
  const EXEMPTED_FORMATS: seq<string> := [".png", ".jpg", ".gif", ".svg", ".woff", ".woff2", ".aspx", ".js"]

  /** The dispatch table: exactly `.html` and `.css` are rewritten. */
  function FormatOf(ext: string): (f: Format)
    ensures f == Html <==> ext == ".html"
    ensures f == Css <==> ext == ".css"
    ensures f == Exempted <==> ext in EXEMPTED_FORMATS
  {
    if ext == ".html" then Html
    else if ext == ".css" then Css
    else if ext in EXEMPTED_FORMATS then Exempted
    else Unlisted
  }

  /**
    `fix_paths(name, data)`: None when `File.extname` is handed `nil`
    (Ruby raises a TypeError), which happens exactly for a name that is
    empty or made only of `?`; otherwise the data, rewritten for `.html`
    and `.css` names and returned unchanged for every other extension,
    whether exempted or not.
  */
  function FixPaths(name: string, data: seq<Byte>): (r: Option<seq<Byte>>)
    ensures r.None? <==> forall k :: 0 <= k < |name| ==> name[k] == '?'
  {
    match FirstField(name)
    case None => None
    case Some(first) =>
      match FormatOf(Extname(first))
      case Html => Some(HtmlRewrite(data))
      case Css => Some(CssRewrite(data))
      case Exempted => Some(data)
      case Unlisted => Some(data)
  }

  /** Whatever the name, `fix_paths` never makes the data longer, leaves
      data without `://` as it is, and touches only `.html` and `.css`. */
  lemma FixPathsShape(name: string, data: seq<Byte>)
    requires FixPaths(name, data).Some?
    ensures |FixPaths(name, data).value| <= |data|
    ensures !Contains(data, SCHEME_SEP) ==> FixPaths(name, data).value == data
    ensures Extname(FirstField(name).value) != ".html" && Extname(FirstField(name).value) != ".css" ==>
      FixPaths(name, data).value == data
  {
    var ext := Extname(FirstField(name).value);
    if ext == ".html" {
      HtmlRewriteDeletes(data);
    } else if ext == ".css" {
      CssRewriteShape(data);
    }
  }

  /**
    End to end: for a name `base.word` optionally followed by a query
    string, `.html` gets the HTML rewrite, `.css` the CSS rewrite, and
    every other extension (`.htm`, the exempted ones, unknown ones) the
    data unchanged.
  */
  lemma FixPathsByExtension(base: string, word: string, query: string, data: seq<Byte>)
    requires |base| > 0 && base[|base| - 1] != '/' && base[|base| - 1] != '.'
    requires forall k :: 0 <= k < |base| ==> base[k] != '?'
    requires |word| > 0 && forall k :: 0 <= k < |word| ==> word[k] != '.' && word[k] != '/' && word[k] != '?'
    requires query == "" || query[0] == '?'
    ensures FixPaths(base + "." + word + query, data) ==
      if word == "html" then Some(HtmlRewrite(data))
      else if word == "css" then Some(CssRewrite(data))
      else Some(data)
  {
    var first := base + "." + word;
    FirstFieldBeforeQuery(first, query);
    ExtnameOfDotted(base, word);
    FixPathsDispatch(first + query, first, data);
    DotWordCases(word, Extname(first));
  }

  /** Once the part before the query is known, only its extension matters. */
  lemma FixPathsDispatch(name: string, first: string, data: seq<Byte>)
    requires FirstField(name) == Some(first)
    ensures FixPaths(name, data) ==
      if Extname(first) == ".html" then Some(HtmlRewrite(data))
      else if Extname(first) == ".css" then Some(CssRewrite(data))
      else Some(data)
  {
  }

  /** `.word` names a rewritten format exactly when `word` is `html` or `css`. */
  lemma DotWordCases(word: string, ext: string)
    requires ext == "." + word
    ensures (ext == ".html" <==> word == "html") && (ext == ".css" <==> word == "css")
  {
    if ext == ".html" {
      assert word == ext[1..];
    }
    if ext == ".css" {
      assert word == ext[1..];
    }
  }

  /** A query string after the name does not take part in the dispatch. */
  lemma FirstFieldBeforeQuery(first: string, query: string)
    requires |first| > 0 && forall k :: 0 <= k < |first| ==> first[k] != '?'
    requires query == "" || query[0] == '?'
    ensures FirstField(first + query) == Some(first)
  {
    var name := first + query;
    assert name[0] == first[0];
    var f := FirstField(name);
    assert f.Some?;
    assert f.value == name[..|first|] == first;
  }

  /** The main resource's name, `index.html`, is always rewritten as HTML. */
  lemma FixPathsIndexHtml(data: seq<Byte>)
    ensures FixPaths("index.html", data) == Some(HtmlRewrite(data))
  {
    assert "index.html" == "index" + "." + "html" + "";
    FixPathsByExtension("index", "html", "", data);
  }
}
