# unwebarchive, modelled in Dafny

`unwebarchive.rb` extracts a Safari `.webarchive` into a directory. After
the property list is decoded:

- the main resource's data has every `file:///` replaced by `./`, and it is
  exported under the locator `file:///index.html`;
- every subresource is then exported in listed order.

`export` derives a file name from a resource's locator:

- a locator with a line beginning `file:` loses its first `file:///`;
- a locator with a line beginning `http` loses the match of `^http.*://`,
  which reaches up to the last `://` of that line;
- any other locator is skipped.

`write_file` opens that name for writing and stores `fix_paths` of the data.
`fix_paths` picks a rewrite by the extension of the name's part before the
first `?`. For `.html` it deletes the `http...://` part of `href="` and
`src="` values, so a link keeps its host. For `.css` it replaces that part
of `url('` and `url(` values with `../../`, again keeping the host. The
unquoted pattern lets a `"` through, so `url("http://host/x")` becomes
`url(../../host/x")`. Every other extension keeps the data as it is.

The model has five modules:

- `Text`: literal search, `gsub`/`sub` with a literal pattern, and
  split/join over sequences.
- `Rewrite`: the main resource's `file:///` replacement and the four
  `fix_paths` patterns, on bytes. Each pattern is a scanner whose contract
  says which match Ruby's engine picks: the longest one at the leftmost
  start.
- `Paths`: `name.split('?').first`, POSIX `File.extname`, the extension
  dispatch and `fix_paths` itself.
- `Locator`: the name `export` derives from a locator. Ruby's `^` matches
  at every line start, and the model keeps that.
- `Archive`: the export directory as a map from names to contents,
  specification functions of `write_file`, `export` and `parse_webarchive`,
  and the class `UnWebarchive`. Its methods update that map step by step and
  are proved equal to the specification functions.

Where Ruby raises for one of the reasons below, the model returns a `Fault`
and keeps what was already written; the failures of `File.open` it does not
capture are listed under "Left out". The faults are:

- no main resource;
- a name `File.open` cannot create: an empty name, a name ending in `/`,
  a name whose last component is `.` or `..`, or a name with a component
  longer than 255 characters (`NAME_MAX`, which `mkdir_p` or `File.open`
  refuses as too long);
- a name made only of `?`, where `split('?').first` is `nil` and
  `File.extname(nil)` raises after the file was already truncated;
- a missing subresource list.

## Model

| member | source | states |
|---|---|---|
| Rewrite.MatchEnd | unwebarchive.rb:91-95 | the end the engine picks for `opener[^X]*http[^X]*://` at a position: a real match, and no match from there is longer |
| Rewrite.GsubFrom | unwebarchive.rb:91-95 | defined by its body: `gsub!` of one pattern, each selected match replaced and the scan resumed after it; its properties are stated by GsubWithoutSchemeSep, GsubWithoutOpener, GsubNotLonger, GsubOnlyDeletes and OriginMatch |
| Rewrite.Gsub | unwebarchive.rb:91-95 | defined by its body: GsubFrom over the whole text |
| Rewrite.GsubWithoutSchemeSep | unwebarchive.rb:91-95 | a pattern substitution leaves text with no `://` exactly as it was |
| Rewrite.GsubWithoutOpener | unwebarchive.rb:91-95 | a pattern substitution leaves text in which its opener never occurs exactly as it was |
| Rewrite.GsubNotLonger | unwebarchive.rb:94-95 | a rule whose replacement is no longer than its shortest match never lengthens the text |
| Rewrite.GsubOnlyDeletes | unwebarchive.rb:91-92 | the `href="`/`src="` substitutions only delete bytes: the result is a subsequence of the input |
| Rewrite.HtmlRewrite | unwebarchive.rb:91-92 | defined by its body: the `href="` pass, then the `src="` pass; its properties are stated by HtmlRewriteDeletes and HrefOriginDropped |
| Rewrite.CssRewrite | unwebarchive.rb:94-95 | defined by its body: the `url('` pass, then the `url(` pass; its properties are stated by CssRewriteShape, UrlOriginReplaced, UrlBareOriginReplaced and UrlDoubleQuotedLosesQuote |
| Rewrite.HtmlRewriteDeletes | unwebarchive.rb:89-92 | the HTML rewrite gives a subsequence of the data, never longer, and unchanged data when there is no `://` |
| Rewrite.CssRewriteShape | unwebarchive.rb:93-95 | the CSS rewrite never lengthens the data and leaves data without `://` unchanged |
| Rewrite.OriginMatch | unwebarchive.rb:91-95 | on `opener mid http:// rest`, where `mid` has no stop byte and `rest` no `:`, a pattern replaces exactly `opener mid http://` |
| Rewrite.MatchEndAtLastSep | unwebarchive.rb:91-95 | a match whose `://` is the last one in the text is the match the engine selects |
| Rewrite.HrefOriginDropped | unwebarchive.rb:91-92 | `href="http://host/path` becomes `href="host/path` when the rest holds no `:`: the host is kept |
| Rewrite.UrlQuotedOrigin | unwebarchive.rb:94 | the first CSS pattern turns `url('http://host/path` into `url('../../host/path` |
| Rewrite.UrlOriginReplaced | unwebarchive.rb:94-95 | the whole CSS rewrite turns `url('http://host/path` into `url('../../host/path`; the second pattern finds nothing left |
| Rewrite.UrlOpenFirstPass | unwebarchive.rb:94 | the `url('` pass changes nothing in a `url(...http://...` text that holds no `'` |
| Rewrite.UrlOpenOrigin | unwebarchive.rb:94-95 | the whole CSS rewrite turns `url(mid http://rest` into `url(../../rest` when neither part holds `'`, `mid` holds no `)` and `rest` no `:` |
| Rewrite.UrlBareOriginReplaced | unwebarchive.rb:94-95 | the whole CSS rewrite turns `url(http://host/path` into `url(../../host/path` |
| Rewrite.UrlDoubleQuotedLosesQuote | unwebarchive.rb:95 | `url("http://host/x")` becomes `url(../../host/x")`: the opening `"` is deleted and the closing one kept |
| Rewrite.LocalizeMain | unwebarchive.rb:53 | defined by its body: every `file:///` replaced by `./`; its properties are stated by NoFileTripleLeft and LocalizeMainSpec |
| Rewrite.NoFileTripleLeft | unwebarchive.rb:53 | after `gsub!(/file:\/\/\//, './')` no `file:///` is left |
| Rewrite.LocalizeMainSpec | unwebarchive.rb:53 | the main resource's data is split at each `file:///` and rejoined with `./`; rejoining with `file:///` gives the data back; no piece contains `file:///`; none is left |
| Text.ReplaceAll | unwebarchive.rb:53 | defined by its body: `gsub` with a literal pattern, leftmost and non-overlapping; its properties are stated by ReplaceIsJoinOfSplit and SplitJoinRoundTrip |
| Text.ReplaceIsJoinOfSplit | unwebarchive.rb:53 | replacing every occurrence equals splitting at the occurrences and joining the pieces with the replacement |
| Text.SplitJoinRoundTrip | unwebarchive.rb:53 | joining the pieces with the pattern itself gives the text back |
| Text.SubFirst | unwebarchive.rb:65 | defined by its body: `sub` with a literal pattern, replacing its first occurrence; its properties are stated by SubFirstAtStart and SubFirstAbsent |
| Text.SubFirstAtStart | unwebarchive.rb:65 | `sub` on a string beginning with the pattern replaces exactly that prefix |
| Text.SubFirstAbsent | unwebarchive.rb:65 | `sub` on a string without the pattern changes nothing |
| Paths.FirstField | unwebarchive.rb:89 | `split('?').first` is nil exactly for a name made only of `?`; otherwise it is the prefix before the first `?` and holds no `?` |
| Paths.Extname | unwebarchive.rb:89 | `File.extname` is the tail of the path once trailing slashes are dropped; it is empty exactly when the last component has no dot after its leading dots, and otherwise starts at the last such dot, with no dot or `/` after it |
| Paths.ExtnameAt | unwebarchive.rb:89 | a dot preceded by an ordinary character and followed by no dot or `/` starts the extension: `a.` gives `.`, `a.b.c` gives `.c` |
| Paths.ExtnameOfDotted | unwebarchive.rb:89 | `base.word` has extension `.word` when `base` ends in an ordinary character and `word` holds no dot or slash |
| Paths.ExtnameOfHidden | unwebarchive.rb:89 | a last component whose only dot leads it (`.bashrc`, `dir/.profile`, `.`) has an empty extension |
| Paths.ExtnameWithoutDot | unwebarchive.rb:89 | a path with no dot has an empty extension |
| Paths.FormatOf | unwebarchive.rb:88-99 | exactly `.html` takes the HTML branch, exactly `.css` the CSS branch, and exactly the eight listed extensions the exempted branch |
| Paths.FixPaths | unwebarchive.rb:87-102 | `fix_paths` fails exactly when the name is made only of `?` |
| Paths.FixPathsShape | unwebarchive.rb:87-102 | the fixed data is never longer than the data, data without `://` is unchanged, and only `.html` and `.css` names change anything |
| Paths.FixPathsDispatch | unwebarchive.rb:89-101 | one step of the definition of FixPaths, stated for use by FixPathsByExtension: only the extension of the part before `?` picks the HTML rewrite, the CSS rewrite or the data unchanged |
| Paths.FixPathsByExtension | unwebarchive.rb:89-101 | for `base.word` plus an optional `?query`: `html` gives the HTML rewrite, `css` the CSS rewrite, any other word (`htm`, the exempted ones, unknown ones) the data unchanged |
| Paths.FirstFieldBeforeQuery | unwebarchive.rb:89 | a query string after a `?`-free name does not take part in the dispatch |
| Paths.FixPathsIndexHtml | unwebarchive.rb:89-92 | `index.html` always gets the HTML rewrite |
| Locator.FirstLineWith | unwebarchive.rb:64 | finds the first line start where a literal begins, and only such a position; None when there is none |
| Locator.HttpMatchWithinLine | unwebarchive.rb:68 | a match of `^http.*://` never crosses a newline |
| Locator.HttpMatchAt | unwebarchive.rb:68 | the end the greedy `.*` selects at a line start is a match, and no match there is longer |
| Locator.HttpSearch | unwebarchive.rb:68 | the leftmost start where `^http.*://` matches, with the longest match there, or None when it matches nowhere |
| Locator.StripHttpPrefix | unwebarchive.rb:68 | defined by its body: the text with the match HttpSearch finds removed, or unchanged without one; its properties are stated by HttpLocatorName and HttpLocatorWithoutSep |
| Locator.ExportName | unwebarchive.rb:63-72 | a locator is skipped exactly when none of its lines begins with `file:` or `http` |
| Locator.FileLocatorName | unwebarchive.rb:64-65 | a locator `file:///rest` is named `rest`, whatever `rest` holds |
| Locator.HttpLocatorName | unwebarchive.rb:67-68 | a one-line `http` locator is named by what follows its last `://` |
| Locator.HttpLocatorWithoutSep | unwebarchive.rb:67-68 | a one-line `http` locator with no `://` after `http` keeps its whole text as its name |
| Locator.OtherLocatorSkipped | unwebarchive.rb:70-71 | a one-line locator beginning with neither `file:` nor `http` is skipped |
| Locator.HostKeptInName | unwebarchive.rb:67-68 | `http://host/path` is written as `host/path` when the rest holds no `:` and no newline |
| Locator.ExampleEmbeddedUrl | unwebarchive.rb:68 | `http://a/?u=https://b/x` is named `b/x` |
| Locator.ExampleParentPathKept | unwebarchive.rb:64-65 | `file:///../../etc/passwd` is named `../../etc/passwd`: no path is refused |
| Locator.ExampleFtpSkipped | unwebarchive.rb:70-71 | `ftp://host/x` is skipped |
| Archive.CannotCreate | unwebarchive.rb:77-81 | defined by its body: `File.open(name, "w")` (or `mkdir_p` before it) raises for an empty name, a name ending in `/`, a last component `.` or `..`, and a component longer than `NAME_MAX`; its cases are stated by DotComponentCannotCreate, LongNameCannotCreate and PlainNameCreatable |
| Archive.DotComponentCannotCreate | unwebarchive.rb:81 | `.`, `..`, `dir/.` and `dir/..` cannot be created |
| Archive.LongNameCannotCreate | unwebarchive.rb:77-81 | a name with a component of more than 255 characters, wherever it stands, cannot be created |
| Archive.PlainNameCreatable | unwebarchive.rb:81 | a name without `/` of three to 255 characters can be created |
| Archive.IndexHtmlCreatable | unwebarchive.rb:54 | `index.html`, the main resource's name, can be created |
| Archive.WriteFileResult | unwebarchive.rb:75-84 | defined by its body: the directory and fault after `write_file`; its properties are stated by WriteFileFrame |
| Archive.ExportResult | unwebarchive.rb:63-73 | defined by its body: `write_file` under the name ExportName gives, or nothing for a skipped locator; its properties are stated by ExportFaults, DirectoryLocatorStops and DotLocatorStops |
| Archive.ExportAllResult | unwebarchive.rb:55-59 | defined by its body: the subresources exported in order, stopping at the first fault; its properties are stated by ExportAllUntouched, ExportAllKeepsNames, ExportAllLastWriteWins and ExportAllFaults |
| Archive.ParseResult | unwebarchive.rb:47-61 | defined by its body: the main resource, then the subresources; its properties are stated by ParseWritesIndexFirst, ParseWithoutMain and IndexHtmlFromMain |
| Archive.UnWebarchive.constructor | unwebarchive.rb:30-36 | the export directory starts from what it already holds; `initialize` then runs `parse_webarchive`, which is ParseWebarchive called on the new object |
| Archive.UnWebarchive.WriteFile | unwebarchive.rb:75-84 | the new directory and fault are those `WriteFileResult` gives for the old directory |
| Archive.UnWebarchive.Export | unwebarchive.rb:63-73 | the new directory and fault are those `ExportResult` gives; a skipped locator changes nothing |
| Archive.UnWebarchive.ParseWebarchive | unwebarchive.rb:47-61 | the loop over subresources ends with the directory and fault `ParseResult` gives for the old directory |
| Archive.LastExporter | unwebarchive.rb:55-59 | the index of the last subresource exported under a name: it is exported under that name and no later one is; None when none is |
| Archive.WriteFileFrame | unwebarchive.rb:75-84 | `write_file` touches only its own name; it succeeds exactly when the name can be created and is not made only of `?`; the file then holds `fix_paths` of the data, never longer than it; an uncreatable name writes nothing; otherwise a failure leaves the file truncated |
| Archive.DirectoryLocatorStops | unwebarchive.rb:67-83 | a locator `http://host/` names a directory: the run stops there and writes nothing for it |
| Archive.DotLocatorStops | unwebarchive.rb:67-83 | a locator `http://.`, `http://dir/.` or `http://dir/..` names a directory: the run stops there and writes nothing for it |
| Archive.MainName | unwebarchive.rb:54 | `file:///index.html` is named `index.html` |
| Archive.ExportMainResource | unwebarchive.rb:53-54 | the main resource lands in `index.html`, holding the HTML rewrite of its localized data |
| Archive.ParseWritesIndexFirst | unwebarchive.rb:51-59 | `index.html` is written first, from the main resource's data alone, then the subresources are exported; a missing list stops the run right after `index.html` |
| Archive.ParseWithoutMain | unwebarchive.rb:51 | one step of the definition of ParseResult: without a main resource nothing is written |
| Archive.ExportAllUntouched | unwebarchive.rb:55-59 | a name no subresource is exported under keeps its entry, or its absence, even when the run stops early |
| Archive.ExportAllKeepsNames | unwebarchive.rb:55-59 | entries are only added or replaced, never removed |
| Archive.ExportAllLastWriteWins | unwebarchive.rb:55-59 | after a run that does not stop early, a name holds `fix_paths` of the data of the last subresource exported under it |
| Archive.ExportFaults | unwebarchive.rb:63-83 | one export stops the run exactly when its resource is named with an uncreatable or all-`?` name |
| Archive.ExportAllFaults | unwebarchive.rb:55-59 | the subresource loop stops early exactly when some subresource is unwritable |
| Archive.ExportAllStopsAtFirst | unwebarchive.rb:55-59 | the loop stops at the first unwritable subresource: every one before it is exported without fault, and its own export ends the run |
| Archive.LastWriteWinsBeforeStop | unwebarchive.rb:55-59 | in a run that stops early, a name the stopping subresource is not exported under holds `fix_paths` of the data of the last earlier subresource exported under it, or its old entry |
| Archive.IndexHtmlFromMain | unwebarchive.rb:53-59 | `index.html` ends up holding the rewritten main resource unless a subresource is itself exported as `index.html` |

## Left out

- lib/plutil.rb is not part of this model. Decoding the property list (the `plutil` call, `Plist.parse_xml`, reading `WebResourceData`) is replaced by the `Webarchive` and `Resource` values, with data already decoded to bytes.
- `prepare_exportdir` (unwebarchive.rb:38-45) is left out: the prompt on standard input, `mkdir_p`, and copying the archive into the export directory. The constructor takes the directory's existing contents instead.
- `FileUtils.cd`, `File.dirname` and `mkdir_p` in `write_file` are not modelled. Names are keys of a map, so paths that alias (`a//b`, `./a`, `a/../b`) are distinct keys.
- Archive.CannotCreate looks at the name alone. It does not capture a name that already stands for a directory, such as `example.com` after `example.com/a.png` was written: `File.open` raises there and the model writes the entry. It does not capture a file standing where a directory is needed either, such as `a/b` after `a` was written, where `mkdir_p` raises. Permissions and NUL bytes in names are also not modelled. Names are counted in characters, which stand for the bytes `NAME_MAX` counts, and the limit on a whole path (`PATH_MAX`, 1024 bytes on macOS) is not modelled.
- The `puts` logging is left out; it does not affect the files written.
- A resource with a missing `WebResourceURL` or `WebResourceData` (a `nil` inside one resource) is not modelled. A resource always carries a locator and data.
- Paths.Extname: only the POSIX behaviour of Ruby 2.7 and later is modelled. Windows separators are not, and neither is older Rubies returning `""` for a name ending in a dot.
- Locator names are sequences of characters and data are sequences of bytes. Encodings and case folding are not modelled; the code compares bytes and characters exactly.

## What the code does not do

- HTML links keep their host: `<a href="http://example.com/a.png">` becomes `<a href="example.com/a.png">` (Rewrite.HrefOriginDropped).
- CSS references keep their host too: `url('http://host/x` becomes `url('../../host/x` (Rewrite.UrlOriginReplaced).
- Locators are not percent-decoded.
- Scheme matching is case-sensitive.
- `..` paths are written as they are (Locator.ExampleParentPathKept).
- Colliding names are not disambiguated: the last write wins (Archive.ExportAllLastWriteWins).
- `.htm` files are not rewritten (Paths.FixPathsByExtension).
