# Personal-Wiki, modelled in Dafny

Personal-Wiki is a Streamlit viewer for a wiki kept as markdown files under
a `categories/` directory. This project models the parts of it that compute
something and proves what they compute:

- **The wiki tree** (`get_md_files` and its helpers). Every `categories/*.md`
  file whose path does not contain `index.md` names a category. Its entry
  holds the file's path, the `.md` files of `categories/<name>/` and the
  subcategories. Each subcategory has an optional `index.md` and its own
  `.md` files. Each helper is an imperative method with the source's loop,
  proved equal to a specification function. The tree's properties are
  lemmas about those functions. The model keeps three quirks of the code:
  - A name is the basename with every `.md` removed, not only the suffix.
  - The `index.md` exclusion is a substring test.
  - Files at category level are not filtered at all.
- **Titles and categories** (`extract_title`, `get_category_from_path`):
  - The regular expression `^#\s+(.+)$` under MULTILINE is modelled
    directly, with leftmost-first search and a greedy `\s+` that backtracks.
  - The category of a path is the second component of
    `categories/<c>/<rest>`.
- **Page rewriting** (`process_links`, `process_images`,
  `clean_code_blocks`). A rendered page is an array of elements with
  attribute maps, changed in place:
  - **Links.** A link `./x` becomes
    `?file=normpath(join(dirname(current), x))` with `target="_self"`.
  - **Images.** An image `./x` whose file exists gets a `data:` URI, with
    its bytes in base64 (section 4 of RFC 4648). It is proved to decode
    back to those bytes.
  - **Code blocks.** A `pre`'s `code` element is replaced by a fresh one.
    `clean_code_blocks` escapes its text with `html.escape`, and the escape
    is proved to be undone by unescaping.
  - **Path functions.** `os.path.basename`, `dirname`, `join` and
    `normpath` are modelled on POSIX. `normpath` is proved idempotent and
    to leave normal paths unchanged.
- **Search** (`search_wiki_content`, `extract_snippet`):
  - The search visits the tree in a fixed order.
  - It keeps every readable file whose lower-cased text contains the
    lower-cased term.
  - A hit's title is the given title, else the text's first heading, else a
    title made from the file name.
  - The snippet window is the text around the first occurrence.
  - A file that cannot be read is skipped.
- **Page selection** (`handle_file_selection`). The session's selected file
  and the URL's `file` parameter are the two fields of a class. The method
  updates them in place through the source's three-step fallback to
  `index.md`.

The filesystem is a snapshot, module `Snapshot`. It holds the listings that
`glob` and `os.listdir` return, the directories, the files that exist, and
the text and bytes of the files that can be read. A missing text or byte
entry stands for a read that raises. Listing orders are whatever the
snapshot holds.

Python's `dict` is modelled as its sequence of items in insertion order,
module `PyDict`. Python's `str` methods are in module `PyStr`. Case mapping
is over ASCII.

`personal_wiki/app/utils/markdown.py` and `streamlit_utils.py` repeat the
code of `personal_wiki/app/utils/file.py`. Each function is modelled once,
and the table below cites each copy.

Three behaviours of the code are kept as they are:

- There is no check that a path stays inside the wiki root.
  - `process_links` emits `?file=../x` for a link `./../../x` on a page one
    directory deep (`Document.LinkAboveRoot`).
  - `handle_file_selection` accepts any existing path its `file` parameter
    names.
- A directory that cannot be listed raises out of `os.listdir`; nothing
  catches it. The snapshot gives every directory a listing.
- `clean_code_blocks` escapes the text of each code block once, with
  `html.escape`, and hands the result to the HTML parser inside a CDATA
  section. The model stops at the escaped text.

## Model

| member | source | states |
|---|---|---|
| WikiTree.GetMdFiles | personal_wiki/app/utils/file.py:26-44 | The loop over the main categories builds exactly `MdFiles(fs)`: for each category file in turn, an entry under its stem holding its path, files and subcategories. The same code is at `streamlit_utils.py:24-43`. |
| WikiTree.CategoryKeys | personal_wiki/app/utils/file.py:31-36 | The tree has a key `k` exactly when some main category file has stem `k`. |
| WikiTree.CategoryEntryOf | personal_wiki/app/utils/file.py:31-42 | The entry under `k` is that of the last main category file with stem `k`. Its path is that file, which is a `categories/*.md` file without `index.md` in its path. Its files are those of category `k` and its subcategories those of category `k`. The same code is at `streamlit_utils.py:30-41`. |
| WikiTree.MdFilesGet | personal_wiki/app/utils/file.py:31-42 | Looking up `k` in the tree gives the entry of the last main category file whose stem is `k`, or nothing when there is none. |
| WikiTree.GetMainCategories | personal_wiki/app/utils/file.py:47-49 | The list comprehension returns exactly the `categories/*.md` listing without the paths that contain `index.md`, in listing order. |
| WikiTree.MainCategoriesExcludeIndex | personal_wiki/app/utils/file.py:49 | A path is a main category file if and only if `glob` lists it and it does not contain `index.md`. The same code is at `streamlit_utils.py:48`. |
| WikiTree.ReindexIsNoCategory | personal_wiki/app/utils/file.py:49 | The exclusion is a substring test: `categories/reindex.md` is never a category. |
| WikiTree.FilterMembers | personal_wiki/app/utils/file.py:49 | A list comprehension with a condition keeps exactly the listed elements that satisfy it. |
| WikiTree.GetCategoryFiles | personal_wiki/app/utils/file.py:52-63 | The loop builds exactly `CategoryFiles(fs, name)`. It is empty when `categories/<name>` is not a directory. Otherwise it holds each `.md` file of that directory under its stem. |
| WikiTree.CategoryFilesOf | personal_wiki/app/utils/file.py:57-61 | With no directory the files are empty. Otherwise the value under `k` is the last listed `.md` file with stem `k`, with no `index.md` exclusion. The same code is at `streamlit_utils.py:56-60`. |
| WikiTree.CategoryFilesKeepIndex | personal_wiki/app/utils/file.py:57-61 | When a category directory lists a `<dir>/index.md`, the key `index` is among the category's files. It holds one of the listed `.md` files whose stem is `index`: nothing leaves it out. |
| WikiTree.GetSubcategories | personal_wiki/app/utils/file.py:66-75 | The comprehension returns exactly the listed entries of the category directory that are directories, and nothing when the category has no directory. |
| WikiTree.SubcategoriesOf | personal_wiki/app/utils/file.py:69-74 | A name is a subcategory exactly when the category directory exists, `listdir` lists the name, and `categories/<name>/<d>` is a directory. |
| WikiTree.SubdirsMembers | personal_wiki/app/utils/file.py:70-74 | The comprehension over `listdir` keeps exactly the entries that are directories. |
| WikiTree.ProcessSubcategories | personal_wiki/app/utils/file.py:78-94 | The loop builds exactly `SubcategoryMap(fs, name, subs)`, one entry per listed subcategory in turn. |
| WikiTree.ProcessSubcategory | personal_wiki/app/utils/file.py:83-92 | The body of the loop gives exactly the entry of one subcategory: its optional index and its files. |
| WikiTree.SubcategoryEntries | personal_wiki/app/utils/file.py:82-92 | There is an entry exactly for each listed subcategory. Its `index` is present if and only if `<path>/index.md` exists, and is then that path. Its `files` are always present and are the subcategory's files. The same code is at `streamlit_utils.py:85-91`. |
| WikiTree.SubcategoryMapGet | personal_wiki/app/utils/file.py:82-92 | The value under `s` is the entry of subcategory `s` when `s` is listed, and nothing otherwise. |
| WikiTree.GetSubcategoryFiles | personal_wiki/app/utils/file.py:97-109 | The loop builds exactly `SubcategoryFiles(fs, path)`: the `.md` files whose paths do not contain `index.md`, under their stems. |
| WikiTree.SubcategoryFilesOf | personal_wiki/app/utils/file.py:101-107 | A key is present exactly when some listed `.md` file without `index.md` in its path has that stem. The value is such a file. The same code is at `streamlit_utils.py:100-106`. |
| WikiTree.FillGet | personal_wiki/app/utils/file.py:59-61 | A loop assigning `d[key(p)] = val(p)` leaves at `k` the value of the last element whose key is `k`, or nothing. |
| WikiTree.FillKeys | personal_wiki/app/utils/file.py:59-61 | The keys of the dict such a loop builds are exactly the keys of the elements. |
| WikiTree.FillUnique | personal_wiki/app/utils/file.py:59-61 | Such a loop never lists a key twice. |
| WikiTree.FillGetSome | personal_wiki/app/utils/file.py:59-61 | A key the dict holds is the key of some element, and holds the value of the last such element. |
| WikiTree.LastKeyed | personal_wiki/app/utils/file.py:59-61 | The last element with key `k` is either absent, when no element has that key, or an element with key `k`. |
| WikiTree.StemOfFile | personal_wiki/app/utils/file.py:32 | The key of `<dir>/<name>.md` is `name` when the name has no `/` and no `.md`. |
| WikiTree.StemRemovesEveryMd | personal_wiki/app/utils/file.py:32 | Every `.md` is removed, not only the suffix: for names `a`, `b` without `/` or `.md`, the key of `<dir>/<a>.md<b>.md` is `a + b`. |
| WikiTree.ReplaceMdAfter | personal_wiki/app/utils/file.py:32 | `replace(".md", "")` on `x + ".md" + y`, with no `.md` in `x`, keeps `x` and goes on with `y`: the first `.md` is dropped and the rest is replaced in turn. |
| WikiTree.StemOfIndex | personal_wiki/app/utils/file.py:60 | The key of any `<dir>/index.md` is `index`. |
| Heading.ExtractTitle | personal_wiki/app/utils/file.py:113-117 | The title is `"Untitled"` when no line-start `#`, whitespace and non-newline character occur anywhere. Otherwise it is the group of the leftmost match with its greedy `\s+`, the rest of that line: non-empty and without a newline. The same code is at `personal_wiki/app/utils/markdown.py:21-27` and `streamlit_utils.py:112-116`. |
| Heading.FirstHeadingLine | personal_wiki/app/utils/file.py:116 | The group of the first match is non-empty and holds no newline. |
| Heading.FirstHeading | personal_wiki/app/utils/file.py:114 | There is no match exactly when no position matches. Otherwise the result is the group of the first match. |
| Heading.GroupStart | personal_wiki/app/utils/file.py:114 | At a matching position the group starts at the largest offset at which the pattern matches, as a backtracking greedy `\s+` finds it. There is no group start exactly when the pattern cannot match there. |
| Heading.DoubleHashLine | personal_wiki/app/utils/file.py:114 | A line that starts with `##` gives no match at its start. |
| Heading.LineEnd | personal_wiki/app/utils/file.py:114 | The `$` of a MULTILINE pattern: the first newline at or after the offset, or the end of the text. |
| Heading.CategoryOfNested | personal_wiki/app/utils/file.py:195-204 | `categories/<c>/<rest>` belongs to category `c`, whatever `rest` is. |
| Heading.CategoryOfTopLevel | personal_wiki/app/utils/file.py:200-204 | `categories/<name>`, with only two components, has no category. |
| Heading.CategoryFromPath | personal_wiki/app/utils/file.py:195-204 | A non-empty category holds no `/` and is the second component of a path `categories/<c>/<rest>`. So `""`, `index.md`, another first component and fewer than three components all give `""`. The same code is at `streamlit_utils.py:154-163`. |
| Document.ProcessLinks | personal_wiki/app/utils/file.py:143-167 | Every element afterwards is the code-block fix-up and then the link rewrite applied to the element as it was. The same code is at `personal_wiki/app/utils/markdown.py:42-67`. |
| Document.FixCodeBlocks | personal_wiki/app/utils/file.py:147-156 | Every element afterwards is `FixCode` of the element as it was. |
| Document.FixCode | personal_wiki/app/utils/markdown.py:47-56 | A `pre` with a `code` gets a fresh `code` with the same text and no attributes. Every other element, and the `pre`'s own tag and attributes, stay as they were. |
| Document.RewriteLinks | personal_wiki/app/utils/file.py:159-165 | Every element afterwards is `RewriteLink` of the element as it was. This is also all of `process_links` in `streamlit_utils.py:141-152`, which has no code-block fix-up and so leaves `pre` and `code` elements alone. |
| Document.RewriteLinkAt | personal_wiki/app/utils/file.py:160-165 | One pass of the link loop: element `i` is rewritten and every other element is unchanged. |
| Document.RewriteLink | personal_wiki/app/utils/markdown.py:59-65 | An element changes if and only if it is an anchor whose `href` starts with `./`. It then has `href` set to the `?file=` target of its `href` and `target` set to `_self`. Every other attribute, the tag and the code are kept. The same code is at `personal_wiki/app/utils/file.py:159-165`. |
| Document.RewriteLinkIdempotent | personal_wiki/app/utils/file.py:161-165 | A rewritten link is not rewritten again, because the new `href` does not start with `./`. |
| Document.LinkTarget | personal_wiki/app/utils/file.py:163-164 | The target of a relative link starts with `?file=` and is itself no relative link. |
| Document.LinkTargetFrom | personal_wiki/app/utils/file.py:163 | A link `./<rest>` on page `<d>/<file>` goes to `?file=` followed by `normpath(<d>/<rest>)`. |
| Document.LinkToSibling | personal_wiki/app/utils/file.py:163 | A link `./<name>` on page `<dir>/<file>`, with `<dir>` already normal, goes to `?file=<dir>/<name>`. |
| Document.LinkAboveRoot | personal_wiki/app/utils/markdown.py:63 | There is no root check: on a page `<a>/<file>`, the link `./../../<x>` goes to `?file=../<x>`, outside the wiki. |
| Document.AboveRootNorm | personal_wiki/app/utils/markdown.py:63 | `normpath(<a>/../../<x>)` is `../<x>`: a leading `..` that `normpath` cannot resolve is kept. |
| Document.ProcessImages | personal_wiki/app/utils/file.py:129-139 | When the loop completes, the page is `InlineAll` of the page as it was. When an image file exists but cannot be read, the error is that of `InlineAll`: the path of the first such image. The same code is at `personal_wiki/app/utils/markdown.py:29-40` and `streamlit_utils.py:127-137`. |
| Document.InlineImageAt | personal_wiki/app/utils/file.py:131-138 | One pass of the image loop processes element `i` as `InlineImage` does, or returns its error. Every other element is unchanged. |
| Document.InlineImage | personal_wiki/app/utils/file.py:131-138 | It fails if and only if the element is an image with a `./` `src` whose file exists but cannot be read. Otherwise the element changes if and only if it is such an image whose file can be read. The new `src` is then `data:image/png;base64,` followed by the encoding of the file's bytes, and every other attribute, the tag and the code stay. |
| Document.InlinedBytes | personal_wiki/app/utils/file.py:137-138 | The `data:` URI of an inlined image decodes to exactly the bytes of its file. |
| Document.InlineAll | personal_wiki/app/utils/file.py:131-139 | The page is processed if and only if every element is. Each element of the result is then the processed element. |
| Document.InlineAllPrefix | personal_wiki/app/utils/file.py:131-137 | An error among the first `k` elements is the error of the whole page: the first unreadable image stops the pass. |
| Document.CleanCodeBlocks | personal_wiki/app/utils/file.py:170-193 | Every element afterwards is `CleanCode` of the element as it was. The same code is at `personal_wiki/app/utils/markdown.py:69-81`. |
| Document.CleanCode | personal_wiki/app/utils/markdown.py:73-79 | Only the `code` of a `pre` changes: it is replaced by a fresh `code` without attributes, holding the escaped text, with no `<`, `>` or quote left. |
| Document.CleanCodeKeepsText | personal_wiki/app/utils/file.py:178-185 | The escaped text of a cleaned code block unescapes to exactly the original text. |
| Document.CleanAfterFix | personal_wiki/app/utils/file.py:147-191 | Cleaning after the fix-up of `process_links` gives what cleaning alone gives. |
| HtmlEscape.Escape | personal_wiki/app/utils/file.py:184-185 | The result of `html.escape` holds no `<`, `>`, `"` or `'`, and is at least as long as the text. |
| HtmlEscape.UnescapeEscape | personal_wiki/app/utils/markdown.py:77 | Unescaping undoes `html.escape`: the escape loses nothing. |
| HtmlEscape.EscapePlain | personal_wiki/app/utils/markdown.py:77 | Text without `&`, `<`, `>`, `"` or `'` is its own escape. |
| Base64.DecodeEncode | personal_wiki/app/utils/file.py:137 | Decoding the base64 encoding of any bytes gives those bytes back. |
| Base64.EncodeLength | personal_wiki/app/utils/file.py:137 | The encoding of `n` bytes has `4 * ceil(n / 3)` characters. |
| Base64.EncodeAlphabet | personal_wiki/app/utils/file.py:137 | Every character of the encoding is in the base64 alphabet or is the padding `=`. |
| Base64.EncodeQuad | personal_wiki/app/utils/file.py:137 | Three bytes become four characters of the alphabet. |
| Base64.ValueChar | personal_wiki/app/utils/file.py:137 | The alphabet is one-to-one: each six-bit value is the value of its character. |
| PosixPath.BasenameIsLastComponent | personal_wiki/app/utils/file.py:32 | The basename holds no `/` and ends the path. What precedes it is empty or ends with `/`, so it is the whole last component. |
| PosixPath.BasenameOfComponent | personal_wiki/app/utils/file.py:60 | The basename of `<a>/<b>` is `b` when `b` holds no `/`. |
| PosixPath.DirnameOfComponent | personal_wiki/app/utils/file.py:134 | The dirname of `<a>/<b>` is `a` when `b` holds no `/` and `a` does not end with `/`. |
| PosixPath.JoinShape | personal_wiki/app/utils/file.py:134 | `join(a, b)` ends with `b`. A relative `b` follows `a`, behind exactly one `/` unless `a` is empty or already ends with one, so `join("", b)` is `b`. An absolute `b` discards `a`. |
| PosixPath.DirnameJoinBasename | personal_wiki/app/utils/file.py:134 | A path without `//` is the join of its dirname and its basename. |
| PosixPath.RStripSlashes | personal_wiki/app/utils/file.py:134 | The result is a prefix of the text that does not end with `/`, and what was removed is all slashes. |
| PosixPath.NormPathShape | personal_wiki/app/utils/file.py:163 | `normpath` gives `.` or the argument's leading slashes (none, one or two) before normal components: none empty or `.`, every `..` before every real component, and no `..` in an absolute path. |
| PosixPath.NormPathIdempotent | personal_wiki/app/utils/file.py:163 | `normpath` of a normalised path changes nothing. |
| PosixPath.NormPathOfRelative | personal_wiki/app/utils/file.py:163 | A normal relative path is its own normal form. |
| PosixPath.NormPathOfRooted | personal_wiki/app/utils/file.py:163 | A normal path with one leading slash is its own normal form. |
| PosixPath.NormPathOfDoubleRooted | personal_wiki/app/utils/file.py:163 | A normal path with two leading slashes, which POSIX keeps, is its own normal form. |
| PosixPath.NormPathRelative | personal_wiki/app/utils/file.py:163 | A relative path normalises to its folded components joined by `/`, or to `.` when none is left. |
| PosixPath.NormPathDot | personal_wiki/app/utils/file.py:163 | `normpath(".")` is `.`. |
| PosixPath.StepNormal | personal_wiki/app/utils/file.py:163 | One step of `normpath`, dropping `.` and empty components and resolving `..`, keeps the components normal. |
| PosixPath.FoldNormal | personal_wiki/app/utils/file.py:163 | The whole fold leaves normal components. |
| PosixPath.FoldOfNormal | personal_wiki/app/utils/file.py:163 | Folding components that are already normal changes nothing. |
| PosixPath.SplitJoin | personal_wiki/app/utils/file.py:163 | Splitting a join of separator-free parts on the separator gives the parts back. |
| PyStr.Split | personal_wiki/app/utils/file.py:200 | `split` on one character gives at least one part, none holding the separator. |
| PyStr.JoinSplit | personal_wiki/app/utils/file.py:200 | Joining the parts of a split with the separator gives the text back. |
| PyStr.SplitAfterComponent | personal_wiki/app/utils/file.py:200 | A separator-free component followed by the separator splits off as the first part. |
| PyStr.Find | personal_wiki/app/utils/search.py:55 | `find` gives -1 if and only if the term does not occur. Otherwise it gives the first offset at which it occurs. |
| PyStr.In | personal_wiki/app/utils/search.py:14 | `term in content` holds if and only if the term occurs in the content. |
| PyStr.Lower | personal_wiki/app/utils/search.py:13 | `lower` keeps the length, lower-cases each character and leaves no ASCII capital. |
| PyStr.LowerIdempotent | personal_wiki/app/utils/search.py:8 | Lower-casing twice is lower-casing once, so the lower-cased term is matched against lower-cased text as it is. |
| PyStr.LowerIgnoresCase | personal_wiki/app/utils/search.py:13-14 | Texts that differ only in the case of ASCII letters lower-case to the same text. |
| PyStr.Capitalize | personal_wiki/app/utils/search.py:34 | `capitalize` upper-cases the first character and lower-cases the rest, keeping the length. |
| PyStr.CapitalizeIgnoresCase | personal_wiki/app/utils/search.py:45 | Capitalising changes only case: the lower-cased result is the lower-cased text. |
| PyStr.Title | personal_wiki/app/utils/search.py:21 | `title` upper-cases a letter that comes first or follows a non-letter, lower-cases every other letter, and keeps every other character. |
| PyStr.TitleIgnoresCase | personal_wiki/app/utils/search.py:21 | Title-casing changes only case: the lower-cased result is the lower-cased text. |
| PyStr.TitleKeepsUncased | personal_wiki/app/utils/search.py:21 | A character that is not a letter is in the title-cased text if and only if it is in the text. |
| PyStr.ReplaceAtFind | personal_wiki/app/utils/search.py:21 | `replace` leaves a text without the pattern unchanged. Otherwise it replaces the occurrence `find` gives first and carries on after it. |
| PyStr.ReplaceShape | personal_wiki/app/utils/search.py:21 | `replace` brings in no character that is in neither the text nor the replacement. It removes every one-character pattern the replacement does not hold. It never lengthens the text when the replacement is no longer than the pattern. |
| PyDict.GetKeys | personal_wiki/app/utils/file.py:61 | A lookup finds a value if and only if the key is one of the dict's keys. |
| PyDict.SetKeys | personal_wiki/app/utils/file.py:61 | `d[k] = v` keeps a present key where it stands and appends a new key at the end. |
| PyDict.GetSet | personal_wiki/app/utils/file.py:61 | After `d[k] = v`, key `k` holds `v` and every other key keeps its value. |
| PyDict.SetUnique | personal_wiki/app/utils/file.py:61 | Assignment keeps the keys unique. |
| PyDict.GetIsItem | personal_wiki/app/utils/search.py:37 | A value found by a lookup is the value of one of the items that `items()` iterates over. |
| Search.SearchWikiContent | personal_wiki/app/utils/search.py:5-51 | The results are exactly the hits of `search_file` on the tree's visits, in visiting order. |
| Search.SearchCategory | personal_wiki/app/utils/search.py:32-49 | One pass of the outer loop appends the hits of the category's main file, then its files, then its subcategories. |
| Search.SearchFiles | personal_wiki/app/utils/search.py:37-38 | The loop over a file dict appends the hits of its files, in dict order, each searched with no title. |
| Search.SearchSubcategories | personal_wiki/app/utils/search.py:41-49 | The loop over the subcategories appends the hits of each one in dict order. |
| Search.SearchSubcategory | personal_wiki/app/utils/search.py:43-49 | One subcategory appends the hit of its index, if it has one, titled `<Name> Index`, and then those of its files. |
| Search.SubcategoryHits | personal_wiki/app/utils/search.py:44-49 | The hits of a subcategory are those of its optional index followed by those of its files. |
| Search.CategoryHits | personal_wiki/app/utils/search.py:34-49 | The hits of a category are those of its main file, then its files, then its subcategories. |
| Search.TreeHitsOrder | personal_wiki/app/utils/search.py:32-49 | The results are the hits of the categories before category `i`, then those of category `i`, then those of the categories after it. |
| Search.CategoryTitles | personal_wiki/app/utils/search.py:34-48 | A category's main file comes first, titled with the capitalised category name. Every other visit is either an index titled `<Name> Index` or a file with no title. |
| Search.SubcategoryTitles | personal_wiki/app/utils/search.py:45-49 | A subcategory visit is an index titled `<Name> Index` or a file with no title. |
| Search.FileVisitsUntitled | personal_wiki/app/utils/search.py:37-38 | Every file of a dict is visited with no title and with its path as stored in the dict. |
| Search.SearchFile | personal_wiki/app/utils/search.py:11-29 | A visit gives a hit if and only if its file can be read and its lower-cased text contains the term. The hit then holds the path, its title, and the snippet of the lower-cased text. |
| Search.HitTitle | personal_wiki/app/utils/search.py:16-21 | The title is the given one when it is not empty. Otherwise it is the group of the first `# ` heading of the lower-cased text: non-empty, without a newline. Failing that, it is the file name with `.md` removed, `-` made a space, then title-cased. |
| Search.NameTitle | personal_wiki/app/utils/search.py:21 | The title made from a file name is no longer than its basename and holds neither `/` nor `-`. |
| Search.HitIsMatch | personal_wiki/app/utils/search.py:12-27 | Every result is a visited file that can be read, whose lower-cased text contains the term. Its snippet is taken from that lower-cased text. |
| Search.MatchIsHit | personal_wiki/app/utils/search.py:12-27 | Every visited file that can be read and whose lower-cased text contains the term gives a result. |
| Search.HitsMembers | personal_wiki/app/utils/search.py:11-29 | A hit is among the results if and only if some visit gives it. |
| Search.HitsAppend | personal_wiki/app/utils/search.py:32-49 | The hits of consecutive runs of visits are the hits of each run, in order. |
| Search.FailedReadSkipped | personal_wiki/app/utils/search.py:28-29 | A file that cannot be read adds nothing and does not stop the search: the visits around it give their hits as if it were not there. |
| Search.ExtractSnippet | personal_wiki/app/utils/search.py:53-57 | The snippet is empty if and only if the term does not occur in the content, or the content is empty. |
| Search.SnippetShape | personal_wiki/app/utils/search.py:59-69 | The snippet is an optional `...`, the window around the first occurrence, and an optional `...`. The window holds the term at offset `pos - start` and has at most `len(term) + 2 * chars` characters. Each `...` is there if and only if the window stops short of that end of the text. |
| Search.Window | personal_wiki/app/utils/search.py:59-60 | `start = max(0, pos - chars)` and `end = min(len, pos + len(term) + chars)`. The window contains the occurrence, lies in the text and is at most `len(term) + 2 * chars` wide. It starts at 0 only when `pos <= chars`, and ends at the end of the text only when that is within `chars` of the occurrence's end. |
| Selection.Session.HandleFileSelection | personal_wiki/app/ui/content.py:8-30 | Afterwards the selection is the returned file. That file is `SelectionAfter` of the old selection and parameter, and the new parameter is `ParamAfter` of them. |
| Selection.SelectionExists | personal_wiki/app/ui/content.py:25-30 | The page shown exists, unless it is `index.md` and that does not exist either. |
| Selection.ValidParamWins | personal_wiki/app/ui/content.py:13-14 | A non-empty parameter naming an existing file becomes the selection and is left as it is. |
| Selection.ParamAgreesOrStale | personal_wiki/app/ui/content.py:13-28 | Afterwards the parameter names the page shown, or it names no existing file: a stale parameter can be left while `index.md` is shown. |
| Selection.HandleFileSelectionIdempotent | personal_wiki/app/ui/content.py:8-30 | Handling the selection again, on the state it leaves, changes neither the selection nor the parameter. |

## Left out

- Markdown conversion (`md_to_html`) is not modelled: it is a foreign library. The code passes its output to the rewriting passes.
- HTML parsing and serialisation by BeautifulSoup are not modelled, because they are a foreign library. This includes `str(soup)` and the CDATA section `clean_code_blocks` wraps the escaped text in. A page is an array of elements in document order. A `pre` records only the first `code` element that `pre.code` finds, with its text.
- Document.CleanCode: states the escaped text of the new `code` element, not the nodes the parser makes of its CDATA wrapper.
- Nested elements are not modelled. That includes anchors or images inside a `code` block, which the fix-up of `process_links` turns into text before the link loop runs.
- The order of attributes inside an element is not modelled. Attributes are a map.
- The real filesystem, its errors and `os.path.getmtime` are out. Every query the wiki makes comes from a snapshot. A failing `os.listdir` is not modelled, because the snapshot gives every directory a listing.
- `read_md_file` is the snapshot's text of a file, or nothing when the read raises. Opening with UTF-8 decoding is not modelled.
- `glob` is not modelled. The snapshot holds the `<dir>/*.md` listing of each directory, in an order it chooses.
- PyStr.Lower: maps ASCII letters only. Full Unicode case mapping is out of scope.
- `str.capitalize` and `str.title` are modelled over ASCII letters only. Full Unicode case mapping is out of scope.
- `search_file` prints a message when a read fails. The message is output only and is not modelled. The file is skipped as the code skips it.
- The `st.error` banner of `handle_file_selection` is output only and is not modelled.
- `handle_file_selection` is modelled over the two optional values it reads. Streamlit's session and URL machinery is not modelled.
- The rest of `personal_wiki/app/ui/content.py` depends on the working directory and the clock: breadcrumbs, dates and the rendering glue. The sidebar, page layout, CSS, theme and entry-point scripts are user interface only.
