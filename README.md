# Furnace manual builder, modelled in Dafny

`make_paper.py` turns the Markdown pages of the Furnace manual into one
HTML document. It walks the `papers` directory and keeps every file whose
lower-cased name ends in `.md`. It sorts the paths with `sort_func`:
paths outside a `/doc/` folder form an appendix at the end, and a
README comes before its siblings. Then it reads each file in that order.
It rewrites its links with `fix_links`: images become paths next to the
page; repository URLs and relative paths become `#` anchors of other
sections; other URLs stay as they are. It shifts every heading one level
down with `fix_headings`. Finally, it renders the text with Markdown and
wraps it in `<section id="…">` named after the path with `/` replaced
by `__`. The sections are placed inside a fixed HTML template.

The model is split into modules along that pipeline:

| module | file | what it holds |
|---|---|---|
| `Wrappers` | wrappers.dfy | `Option` and `Result` |
| `Strings` | strings.dfy | `startswith`, `endswith`, `index`, `find`, `rfind`, `split(sep)[-1]`, ASCII `lower` |
| `Lex` | lex.dfy | Python's `<=` on `str`, a total order |
| `Paths` | paths.dfy | `posixpath` `split`, `join`, `splitext`, `normpath`, and the `replace('/', '__')` anchor id |
| `Regex` | regex.dfy | the two patterns as matchers, and the left-to-right scan `re.sub` performs |
| `Rewrite` | rewrite.dfy | `re.sub` with a callback: the scan, each match replaced |
| `Links` | links.dfy | `fix_links`: the four cases of a link target |
| `Relink` | relink.dfy | the link pass: `re.sub` of the link pattern with `fix_links` |
| `Headings` | headings.dfy | `fix_headings` and the heading pass |
| `Ordering` | ordering.dfy | `sort_func` and `list.sort` as a stable insertion sort |
| `Manual` | manual.dfy | the discovery loops, the assembly loop and the whole run |

The two loops of the main block are methods with `while` loops
(`Manual.DiscoverFiles`, `Manual.AssembleBody`). Each is proved equal to
a function (`Discovered`, `Body`), and the properties the program relies
on are proved about those functions. Everything else in the source is
expressions and calls, so it becomes functions and lemmas.

## Model

| member | source | states |
|---|---|---|
| Strings.IndexOf | make_paper.py:20 | `str.index`: gives the first position where the substring occurs, and `None` (the `ValueError`) exactly when it does not occur |
| Strings.Find | make_paper.py:57 | the first occurrence of a character, and `None` exactly when it is absent (used to cut a path into its components) |
| Strings.RFind | make_paper.py:34-37 | the last occurrence of a character, and `None` exactly when it is absent (used by `os.path.split` and `os.path.splitext`) |
| Strings.LastPieceSuffix | make_paper.py:43 | `split(BASE_URL)[-1]` is a suffix without the separator, and it is the whole string or comes right after an occurrence of the separator |
| Strings.LastPieceAfterPrefix | make_paper.py:43 | a leading separator does not change the last piece of the split |
| Strings.LastPieceWhole | make_paper.py:43 | a string without the separator is its own last piece |
| Strings.LastPieceShort | make_paper.py:43 | a string shorter than the separator is its own last piece |
| Strings.LastPieceAt | make_paper.py:43 | for a separator that cannot overlap itself, the last piece is what follows an occurrence of the separator after which it does not occur again, however many occurrences come before |
| Strings.Lower | make_paper.py:73 | `lower()` keeps the length and lower-cases each ASCII capital, leaving every other character as it is |
| Lex.LexLeTotal | make_paper.py:80 | the key order used by the sort is total |
| Lex.LexLeTrans | make_paper.py:80 | the key order is transitive |
| Lex.LexLeAntisym | make_paper.py:80 | the key order is antisymmetric |
| Lex.LexLeCommonPrefix | make_paper.py:80 | a common prefix does not change how two keys compare |
| Lex.LexLtFirst | make_paper.py:80 | a key whose first character is smaller is strictly below |
| Ordering.SortKeyAppendix | make_paper.py:19-22 | a path with no `/doc/` gets the key `z` |
| Ordering.SortKeyReadme | make_paper.py:25-27 | a `/doc/` path that mentions `README.md` is keyed by what precedes its first mention, followed by `0` |
| Ordering.SortKeyPlain | make_paper.py:28-29 | any other `/doc/` path is its own key |
| Ordering.SortBy | make_paper.py:80 | the sorted list is ordered by key and is a permutation of its input |
| Ordering.SortFiles | make_paper.py:80 | the file list, sorted by `sort_func`, is ordered by key and is a permutation of the discovered files |
| Ordering.InsertStable | make_paper.py:80 | inserting an element into a sorted list keeps, for every key, the order of the elements with that key |
| Ordering.SortStable | make_paper.py:80 | the sort is stable: for every key, the elements with that key keep their input order |
| Ordering.AppendixKeepsOrder | make_paper.py:18-22 | the appendix (`z`-keyed) files keep the order the walk found them in |
| Ordering.AppendixLast | make_paper.py:18-22 | a file whose key starts below `z` is placed before every file outside `/doc/` |
| Ordering.ReadmeKeyBelow | make_paper.py:24-27 | in a `/doc/` directory, the README's key is strictly below the key of any sibling whose name starts above `0` |
| Ordering.ReadmeFirst | make_paper.py:24-27 | in a `/doc/` directory, the sorted list puts the README before every such sibling |
| Paths.SplitJoin | make_paper.py:57 | splitting a joined path on `/` gives back its components |
| Paths.JoinSplit | make_paper.py:57 | joining the components of a split path gives back the path |
| Paths.Normalize | make_paper.py:57 | `relpath(abspath(p))` of a relative path is `.` or a path in normal form: no empty or `.` components, and `..` only in a leading run |
| Paths.NormalizeFixed | make_paper.py:57 | a path already in normal form is left unchanged |
| Paths.NormalizeIdempotent | make_paper.py:57 | normalising twice is the same as normalising once |
| Paths.ResolveRelative | make_paper.py:56-57 | a directory followed by `n` `..` steps and plain names resolves to the directory climbed `n` levels, followed by the names |
| Paths.DirName | make_paper.py:37 | `os.path.split(p)[0]` is a prefix of `p` |
| Paths.DirNameOfChild | make_paper.py:37 | the directory of `d/a`, for a file name `a`, is `d` |
| Paths.PathJoin | make_paper.py:37 | `os.path.join(a, b)` is `b` when `b` is absolute; otherwise it starts with `a` and ends with `b` |
| Paths.PathJoinSegs | make_paper.py:74 | joining a directory of plain components and a file name gives the path of the components together |
| Paths.Ext | make_paper.py:34 | `splitext(p)[1]` is empty, or a `.` with no further `.` or `/` that `p` ends with |
| Paths.ExtIs | make_paper.py:34 | a path has extension `e` exactly when it ends with `e` and its last component has a stem before `e` |
| Paths.AnchorId | make_paper.py:48 | the anchor id contains no `/`, and a path without `/` is its own id |
| Paths.AnchorIdAppend | make_paper.py:48 | the anchor id of a concatenation is the concatenation of the ids |
| Paths.AnchorIdInjective | make_paper.py:48 | two paths without `_` have the same anchor id only if they are equal |
| Paths.AnchorIdCollision | make_paper.py:48 | with `_` allowed in names, `d/f` and the different name `d__f` get the same anchor id |
| Regex.LinkAtLazy | make_paper.py:88 | a link match is `[label](target)` with the shortest possible label, then the shortest possible target |
| Regex.LinkAtNone | make_paper.py:88 | where the link pattern does not match, no reading of the text as a link fits |
| Regex.LinkAtPlain | make_paper.py:88 | a link with no `]` in its label and no `)` in its target is exactly the match of the link pattern |
| Regex.HeadingAtSome | make_paper.py:89 | a heading match starts a line, and covers the whitespace and then the whole run of `#` after it, which group 1 captures |
| Regex.HeadingAtNone | make_paper.py:89 | at a line start with no heading match, no `#` follows the whitespace |
| Regex.HeadingAtHash | make_paper.py:89 | a line whose first non-blank character is `#` is a heading match up to the end of the run of `#` |
| Regex.NoHeadingAtText | make_paper.py:89 | a line whose first non-blank character is not `#` is no heading match |
| Regex.ScanCovers | make_paper.py:88-89 | the scan cuts the text into consecutive pieces: places where the pattern does not match, and the matches it makes |
| Regex.ScanUnique | make_paper.py:88-89 | the scan is the only such cutting of the text |
| Regex.PiecesCover | make_paper.py:88-89 | the pieces of a cutting put together give back the text |
| Rewrite.RenderScan | make_paper.py:88-89 | replacing the matches of the scan is substituting step by step: a match becomes the callback's result, and any other character is kept |
| Rewrite.SubstituteSteps | make_paper.py:88-89 | `re.sub` over the whole text is the step-by-step substitution from position 0 |
| Rewrite.NoMatchUnchanged | make_paper.py:88-89 | a text where the pattern matches nowhere comes out unchanged |
| Rewrite.IdentityUnchanged | make_paper.py:88-89 | when the callback returns every match as it is, the text comes out unchanged |
| Links.ImageWhen | make_paper.py:34 | a target counts as an image exactly when it ends in `.png` after a stem: the test is case-sensitive |
| Links.ImageLink | make_paper.py:34-38 | an image link keeps its text, and its target is joined to the page's directory; an absolute target stays as it is |
| Links.BaseUrlUnbordered | make_paper.py:41-43 | the base URL cannot overlap itself, so its occurrences in a target are disjoint |
| Links.RepoLink | make_paper.py:41-49 | a target that starts with the base URL becomes `#` plus the anchor id of the path after the last occurrence of the base URL, with `/README.md` added when that path has no extension |
| Links.ExternalLink | make_paper.py:52-53 | any other `http` target leaves the whole match unchanged |
| Links.RelativeLink | make_paper.py:56-61 | a relative target becomes `#` plus the anchor id of the normalised path of the page's directory joined with the target |
| Relink.ExternalLinksUnchanged | make_paper.py:52-53 | a text whose every link goes to an external URL passes the link pass unchanged |
| Relink.SingleLink | make_paper.py:88 | a text that is one link `[text](target)` becomes what `fix_links` makes of it |
| Headings.HeadingLine | make_paper.py:63-66 | a heading line loses the whitespace before its `#`s and gains one `#`; the rest of the line is kept |
| Headings.HeadingTwice | make_paper.py:89 | a second heading pass adds another `#`, so the pass is not idempotent |
| Headings.HeadingAgain | make_paper.py:63-66 | an unindented heading gains exactly one `#` |
| Headings.ShiftLines | make_paper.py:89 | in text made of non-blank lines, each line whose first non-blank character is `#` loses its indentation and gains a `#` (even inside a code block), and every other line is kept as it is |
| Manual.IsMarkdownWhen | make_paper.py:73 | a name is kept exactly when its last three characters are `.`, `m` or `M`, and `d` or `D` |
| Manual.MarkdownNamesIff | make_paper.py:73 | a name is kept from a directory exactly when it is listed there and its lower-cased form ends with `.md` |
| Manual.MarkdownNamesAppend | make_paper.py:73 | filtering two lists one after the other is filtering them joined, so the kept names stay in walk order |
| Manual.MarkdownNamesAll | make_paper.py:73 | a list made only of Markdown names passes the filter whole |
| Manual.DiscoveredIff | make_paper.py:70-74 | a path is in the file list exactly when some directory of the walk contributes it as its directory joined with a Markdown name |
| Manual.DiscoverFiles | make_paper.py:70-74 | the two nested loops build exactly the file list: each directory's Markdown files, joined to the directory, in walk order |
| Manual.BodyIsSections | make_paper.py:82-95 | when every file can be read, the body is one `<section id="ID">…</section>` per file, in list order |
| Manual.BodyFailsAtFirstMissing | make_paper.py:83-85 | when a file cannot be opened, the run fails and names the first such file in the list |
| Manual.BodyFailureStays | make_paper.py:83-85 | once a file fails, the rest of the list is not processed |
| Manual.AssembleBody | make_paper.py:77-95 | the loop over the sorted list gives the body: each file's text passes the link pass and then the heading pass, is rendered and wrapped in its section; the loop stops at the first file that cannot be read |
| Manual.BuildManual | make_paper.py:68-235 | the main block lists, sorts and assembles the files and puts the body into the template, or stops with the error |
| Manual.BuildSections | make_paper.py:80-235 | when every file can be read, the manual is the template around one section per discovered file, in `sort_func` order, with the path as id after `/` becomes `__` |
| Manual.BuildEmpty | make_paper.py:70-235 | a walk with no Markdown file gives the bare template |
| Manual.RelativeLinkToSection | make_paper.py:56-61 | a relative link from a discovered page to another page (`..` steps, then names) points at `#` plus exactly the section id the target page gets |

## Left out

- `os.walk('papers')` is an input: a list of `WalkEntry` values. The sub-folder lists it returns are kept but unused, as in the source.
- Reading files is an input: a map from path to text. A path missing from the map is the error `open` would raise, which stops the run.
- `markdown.markdown` with the GitHub-flavoured extension is an opaque `Renderer` parameter, because it is a foreign library.
- The HTML template at lines 98-235 is reduced to a prefix and a suffix around the body. Printing the result (line 237) and the `LOGGER` messages are not modelled.
- `weasyprint` is imported but not used by the code, so it is not modelled.
- `os.path.sep` is taken to be `/`, as on the POSIX systems the build runs on.
- Paths.Normalize: `os.path.relpath(os.path.abspath(p))` depends on the working directory. It is modelled as `posixpath.normpath` of the relative path, so a `..` that climbs above the working directory stays as a leading `..` rather than going through the absolute path.
- Strings.Lower: `str.lower` is modelled on ASCII letters only; Python's Unicode lower-casing is not modelled.
- Regex: `\s` is taken as space, tab, newline, carriage return, vertical tab and form feed. Python's `\s` on `str` also matches the separators `\x1c` to `\x1f` and the Unicode spaces; those are not modelled. The two patterns are modelled by dedicated matchers, not by a general regular-expression engine; their lazy and greedy choices are proved (`Regex.LinkAtLazy`, `Regex.HeadingAtSome`).
- Ordering.SortFiles: `list.sort` sorts in place with Timsort. The model is a stable insertion sort on values, which gives the same list because any stable sort by the same key does; the in-place update is not modelled.
- Relink.SingleLink: stated only for a text that is a single link without `]` in the label or `)` in the target; links with nested brackets are covered by `Regex.LinkAtLazy` instead.
- Headings.ShiftLines: stated for text with no blank lines. A blank line before a heading lets `^\s*` run across lines; `Headings.HeadingLine` covers whitespace that contains newlines at the start of a text.
- Manual.RelativeLinkToSection: stated for pages whose directories and targets consist of plain components (no `.`, `..` or empty components inside the directory, and targets of `..` steps followed by names).
- The global `my_file` that `fix_links` reads is passed explicitly as the path of the file being processed.
