# markdown2html in Dafny

A model of the conversion engine of `markdown2html.py`, which turns the lines of
a Markdown file into one HTML string. It has three parts.

- **Block parsers** (`Blocks.dfy`).
  - `parse_headings` is the function `ParseHeading`.
  - `parse_unordered_list`, `parse_ordered_list` and `parse_paragraph` are
    methods with `while` loops. Each takes the line list and a start index and
    returns the fragment and the index of the first line it did not consume.
  - Each method is proved against a specification function: `ListEnd`/`ListHtml`
    for lists, `ParagraphEnd`/`ParagraphHtml` for paragraphs.
- **Driver loop** (`Converter.dfy`).
  - `MarkdownToHtml` is the loop of `markdown_to_html`. It dispatches on the
    stripped line, collects fragments in input order, joins them with newlines
    and runs the inline passes.
  - A list or paragraph parser can consume no line at all. The sub-parsers test
    the raw line, while the driver tests the stripped one. When that happens the
    Python loop repeats the same iteration forever. The model reports it as
    `Diverges(index)`.
  - `Assemble` is the loop's outcome as a function. `Iterate` is the loop as
    written, run for a bounded number of iterations. Lemmas prove that `Iterate`
    exits with `Assemble`'s fragments when there is no stall, and never exits
    when there is one.
- **Inline passes** (`Inline.dfy`).
  - Each `re.sub` with a pattern `open(.+?)close` is an explicit scan.
    `ScanFrom` goes left to right. At each position it takes the shortest
    non-empty, newline-free group that `close` follows (`CloseFrom`/`GroupEnd`)
    and resumes behind the match.
  - `Render` then puts the replacement in place: `<b>…</b>`, `<em>…</em>`, the
    MD5 digest, or the group without `c`/`C`.
  - The four passes run in the source's order: bold, emphasis, `[[..]]`, `((..))`.

`Strings.dfy` holds the Python string operations the code relies on:
- `strip()` with the full `str.isspace` set;
- `startswith`;
- slicing past the end;
- `'\n'.join`.

The input is the list that `readlines()` returns, so lines may still end in
`\n`. The MD5 digest is the parameter `md5` (see Left out).

Where the code and the usual reading of its documentation differ, the model follows the code:
- **Heading depth.** Seven or more `#` give `<h6>`, and the content keeps the
  extra `#`. A bare `#` gives `<h1></h1>`, and no space is needed after the hashes.
- **Blank lines.** A blank line does not close a paragraph. It is skipped
  inside one.
- **`<br/>`.** It is its own output line. It follows a line whenever the next
  raw line exists and does not start with `#`, `-` or `*`, even when that next
  line is blank.
- **List markers.** Items need `- ` or `* ` (marker and space), on the stripped
  line and on the raw line alike.
- **Pass order.** The inline passes run bold, emphasis, `[[..]]`, `((..))`.
  They run once over the joined document, not per block.
- **Non-termination.** Some inputs make the loop run forever. Examples: a line
  `-x`, a line `**b**`, an indented `  - a`.

## Model

| member | source | states |
|---|---|---|
| Strings.Strip | markdown2html.py:95 | `line.strip()` over the `isspace()` set; the result is never longer than the line |
| Strings.StripShape | markdown2html.py:95 | `strip()` yields the empty string exactly for an all-whitespace line; otherwise the result neither starts nor ends with whitespace, and it starts with the line's first character when that is not whitespace; in every case it is a slice `line[a:b]` with only whitespace before `a` and from `b` on |
| Strings.StripSlice | markdown2html.py:95 | `strip()` removes whitespace only: the result is a slice `line[a:b]` with nothing but whitespace before `a` and from `b` on |
| Strings.StartsWith | markdown2html.py:98 | `line.startswith(p)` (definition): `p` is no longer than the line and equals its first `len(p)` characters |
| Strings.StartsWithPointwise | markdown2html.py:98 | `startswith` holds exactly when the line is long enough and agrees with `p` at every position of `p` |
| Strings.Join | markdown2html.py:31 | `'\n'.join(parts)`: empty for no parts, and the first part opens the result |
| Strings.JoinAppend | markdown2html.py:112 | joining one part more appends the separator and that part, as `join` does for a growing list |
| Strings.Drop | markdown2html.py:27 | `line[2:]` is what follows the first two characters, and is empty for a shorter line |
| Strings.Repeat | markdown2html.py:16 | `'#' * i` is `i` copies of `#` |
| Blocks.LeadingHashes | markdown2html.py:15-16 | the run of `#` a line starts with: all `#`, and followed by a non-`#` or the end |
| Blocks.HeadingTag | markdown2html.py:17 | (definition) the f-string `<h{i}>…</h{i}>` with the level written as one digit |
| Blocks.HeadingFrom | markdown2html.py:15-18 | (definition) the probes of `for i in range(6, 0, -1)` from `i` down: the first `i` for which the line starts with `'#' * i` gives the heading, none gives `None` |
| Blocks.HeadingFromMatchesHashRun | markdown2html.py:15-18 | probing `i = 6, 5, …, 1` for `'#' * i` finds the smaller of the leading run and 6, and nothing when the line does not start with `#` |
| Blocks.ParseHeading | markdown2html.py:11-18 | `None` exactly when the line does not start with `#`; otherwise `<hN>` + the stripped rest after `N` hashes + `</hN>`, `N` = min(6, leading run) |
| Blocks.SevenHashesGiveH6 | markdown2html.py:15-17 | seven or more `#` give level 6, and the content starts with the surplus `#` |
| Blocks.BareHashGivesEmptyH1 | markdown2html.py:15-17 | a bare `#` gives `<h1></h1>` |
| Blocks.ListEnd | markdown2html.py:26-29 | the end `j >= i` of the run: every consumed line starts with the marker, and `lines[j]`, if it exists, does not |
| Blocks.ListItem | markdown2html.py:27-28 | (definition) `<li>` + `line[2:].strip()` + `</li>` |
| Blocks.ListItems | markdown2html.py:26-29 | one item per line of the run, in order: as many items as lines (element by element in `ListItemsAt`) |
| Blocks.ListItemsAt | markdown2html.py:27-28 | the item for consumed line `k` is `<li>` + strip(`lines[k][2:]`) + `</li>`, at position `k - i`, in input order |
| Blocks.ListHtml | markdown2html.py:25-31 | (definition) the opening tag, the items, the closing tag, joined by newlines |
| Blocks.ParseList | markdown2html.py:25-31 | the loop consumes exactly the marker run (`ListEnd`) and returns the opening tag, one item per consumed line and the closing tag, joined by newlines |
| Blocks.ParseUnorderedList | markdown2html.py:21-31 | the list parser with `- `, `<ul>`, `</ul>` |
| Blocks.ParseOrderedList | markdown2html.py:34-44 | the list parser with `* `, `<ol>`, `</ol>` |
| Blocks.ListKindsExclude | markdown2html.py:26-39 | a `- ` line ends an ordered run at once, and a `* ` line an unordered one |
| Blocks.StartsBlock | markdown2html.py:52-58 | (definition) `line.startswith(('#', '-', '*'))` on the raw line |
| Blocks.ParagraphEnd | markdown2html.py:52-60 | the paragraph run ends at the first raw line starting with `#`, `-` or `*`, or at the end; blank lines belong to the run |
| Blocks.ParagraphPart | markdown2html.py:53-59 | (definition) what one iteration appends: nothing for a blank line, else the stripped line, then `<br/>` when a next raw line exists and does not start a block |
| Blocks.ParagraphParts | markdown2html.py:52-60 | (definition) the parts of the iterations over lines `i` up to `j`, in order |
| Blocks.ParagraphHtml | markdown2html.py:51-62 | (definition) `<p>`, the parts, `</p>`, joined by newlines |
| Blocks.ParseParagraph | markdown2html.py:47-62 | the loop consumes exactly that run and returns `<p>`, the parts of each line, `</p>`, joined by newlines |
| Blocks.ParagraphPartsMatchRun | markdown2html.py:53-59 | looking at the next raw line puts `<br/>` after a non-blank line exactly when it is not the last line of the run, blank or not; blank lines emit nothing |
| Inline.CloseFromSpec | markdown2html.py:69 | the lazy group's search returns the first end at which `close` follows a non-empty, newline-free group, and nothing only when there is none |
| Inline.GroupEndSpec | markdown2html.py:69 | the group that starts after the opening delimiter is the shortest one that the closing delimiter follows |
| Inline.ScanFrom | markdown2html.py:69-70 | (definition) where `re.sub` finds its matches from a position on: at each position the match starting there, if any, else the single character, then the same from behind it |
| Inline.NextAt | markdown2html.py:69 | the scan always moves forward and stays within the text |
| Inline.ScanShift | markdown2html.py:69 | what the scan finds from a position depends only on the text from there on |
| Inline.ScanWithoutMatch | markdown2html.py:69 | text where the pattern matches nowhere is copied character by character |
| Inline.ScanMatchAtFront | markdown2html.py:69 | `open X close rest`, with `X` the shortest group, is one match of `X` followed by the scan of `rest` |
| Inline.ScanCopiesPrefix | markdown2html.py:69 | characters that cannot begin the opening delimiter are copied, and the rest is scanned on its own |
| Inline.ScanSplitsAtNewline | markdown2html.py:69 | no match spans a newline: the text on each side of one is scanned independently |
| Inline.Replace | markdown2html.py:69-81 | (definition) the four replacements: `<b>\1</b>`, `<em>\1</em>`, the MD5 hex digest of the group, the group without `c`/`C` |
| Inline.Render | markdown2html.py:69-81 | (definition) the scanned pieces with each match replaced and each copied character kept; it works piece by piece (`RenderAppend`) |
| Inline.Subst | markdown2html.py:69-81 | (definition) `re.sub(open(.+?)close, repl, s)` with literal delimiters: the scan's matches replaced, the other characters copied; its laws are the `Subst…` rows below |
| Inline.SubstWithoutMatch | markdown2html.py:69-70 | `re.sub` leaves text in which the pattern never matches unchanged, including a lone unclosed delimiter |
| Inline.SubstWithoutOpen | markdown2html.py:69-81 | text without the opening delimiter's first character is unchanged |
| Inline.SubstMatchAtFront | markdown2html.py:69-81 | a leading match is replaced and the rest is rewritten on its own |
| Inline.SubstCopiesPrefix | markdown2html.py:69-81 | a prefix without the opening delimiter's first character is kept, and the rest is rewritten on its own |
| Inline.SubstSplitsAtNewline | markdown2html.py:69-81 | each pass rewrites the text before and after a newline independently |
| Inline.ShortestGroup | markdown2html.py:69 | a group free of the closing delimiter's first character is the shortest one |
| Inline.ParseBoldAndEmphasis | markdown2html.py:65-71 | (definition) the `**…**` pass, then the `__…__` pass over its output |
| Inline.BoldBecomesTag | markdown2html.py:65-71 | `**X**` becomes `<b>X</b>` when `X` is one line free of `*` and `_` |
| Inline.EmphasisBecomesTag | markdown2html.py:65-71 | `__X__` becomes `<em>X</em>` when `X` is one line free of `*` and `_` |
| Inline.BoldAndEmphasisWithoutDelimiters | markdown2html.py:65-71 | text without `*` and `_` is unchanged by the first two passes |
| Inline.StripC | markdown2html.py:81 | the group without `c`/`C`: no `c` or `C` is left and nothing is added |
| Inline.StripCAppend | markdown2html.py:81 | removal works character by character, so the kept characters stay in order |
| Inline.StripCKeepsOthers | markdown2html.py:81 | every character other than `c`/`C` is kept as often as it occurs |
| Inline.ParseSpecialSyntax | markdown2html.py:74-82 | (definition) the `[[…]]` digest pass, then the `((…))` pass over its output |
| Inline.DigestPass | markdown2html.py:78-79 | in `P[[X]]rest`, with `P` free of `[` and `X` one line free of `]`, `P` is kept, `[[X]]` becomes the digest of `X`, and `rest` is rewritten on its own |
| Inline.SpecialSyntaxWithoutDelimiters | markdown2html.py:74-82 | text without `[` and `(` is unchanged by the last two passes |
| Inline.DigestInsideParensLosesC | markdown2html.py:74-82 | the passes run in order: a digest produced inside `((..))` then loses its `c` characters |
| Inline.InlinePasses | markdown2html.py:113-114 | (definition) `parse_bold_and_emphasis`, then `parse_special_syntax`, in that order |
| Inline.InlinePassesSplitAtNewline | markdown2html.py:112-114 | the four passes rewrite the two sides of a newline of the joined document independently |
| Converter.StepAt | markdown2html.py:94-110 | one iteration never moves the index back or past the end; a heading moves it by one, a list or paragraph to where the sub-parser stopped |
| Converter.Steps | markdown2html.py:94-110 | the iteration at every index of the document; no iteration moves the index back or past the end |
| Converter.Assemble | markdown2html.py:92-110 | the loop's fragments in order, or the first line reached at which the loop makes no progress |
| Converter.Iterate | markdown2html.py:94-110 | the loop as written, run for at most `fuel` iterations; when it exits, the fragments collected before it started are still in front, unchanged |
| Converter.IterateExits | markdown2html.py:94-110 | without a stall the loop as written exits within one iteration per line, with `Assemble`'s fragments in the same order |
| Converter.IterateNeverExits | markdown2html.py:94-110 | once the loop reaches a stalling line it never exits, however many iterations it runs |
| Converter.NoStallAssembles | markdown2html.py:94-110 | when no line stalls, the loop assembles and exits |
| Converter.StallsIff | markdown2html.py:95-109 | the loop stalls at a line exactly when the stripped line passes the driver's list or paragraph test but the raw line fails the sub-parser's own test |
| Converter.BlankStart | markdown2html.py:95-109 | a blank line passes neither list test and does not end a paragraph |
| Converter.PlainStart | markdown2html.py:95-109 | a line starting with `#` is a heading; one starting with another non-space, non-`-`, non-`*` character passes neither list test and does not end a paragraph |
| Converter.PlainStartNeverStalls | markdown2html.py:95-109 | such blank or plainly starting lines never stall the loop |
| Converter.FirstLineStalls | markdown2html.py:94-109 | a stall at the first line makes the whole conversion diverge there |
| Converter.DashLineDiverges | markdown2html.py:106-109 | the line `-x` makes the loop run forever |
| Converter.BoldLineDiverges | markdown2html.py:106-109 | the line `**b**` makes the loop run forever |
| Converter.IndentedItemDiverges | markdown2html.py:98-101 | the indented line `  - a` makes the loop run forever |
| Converter.Convert | markdown2html.py:92-114 | the conversion: the inline passes over the joined fragments, or divergence, and divergence only at a line of the document at which the loop stalls |
| Converter.MarkdownToHtml | markdown2html.py:92-114 | the loop returns the inline passes over the newline-joined fragments of `Assemble`, or `Diverges` at the line where the source loops forever |
| Converter.EmptyConverts | markdown2html.py:92-114 | an empty document gives the empty string |
| Converter.EachInline | markdown2html.py:112-114 | the inline passes applied to each fragment on its own: one result per fragment |
| Converter.InlinePassesJoin | markdown2html.py:112-114 | running the passes once over the joined fragments equals running them over each fragment and joining the results |
| Converter.ConvertedByFragment | markdown2html.py:112-114 | a converted document is its fragments, each rewritten by the inline passes, joined by newlines |

## Left out

- Command-line handling (markdown2html.py:120-134): argument count, usage and
  `Missing …` messages, `os.path.isfile`, `sys.exit`. This is process plumbing.
- File reading and writing (markdown2html.py:89-90, 116-117). The input is the
  `readlines()` list and the output is the returned string.
- MD5 (markdown2html.py:79). `hashlib.md5(...).hexdigest()` is a foreign call.
  It is the parameter `md5: string -> string`; only `IsHexDigest` describes its
  output shape where a lemma needs it.
- Python's general `re` engine. Only the four fixed patterns are modelled, each
  as an explicit leftmost, shortest-group scan.
- Encoding. Text is a sequence of characters; UTF-8 encoding before hashing is
  part of the `md5` parameter.
- Running out of memory. When the source loops forever it also appends the same
  fragment to `html_lines` forever. The model stops at the first repeat and
  returns `Diverges`.
- Unbounded iteration. The literal loop (`Iterate`) runs for a bounded number
  of iterations (`fuel`), because a function must terminate. "Never exits" is
  stated for every bound.
