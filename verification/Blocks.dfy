/**
 * The line and block parsers of markdown2html.py: headings, the two kinds of
 * list and paragraphs. A list or paragraph parser takes the whole line list
 * and a start index, consumes a run of lines and returns the HTML fragment
 * with the index of the first line it did not consume.
 */
module Blocks {
  import opened Options
  import opened Strings

  // ---------------------------------------------------------------- headings

  /** The length of the run of `#` characters that `line` starts with. */
  function LeadingHashes(line: string): (n: nat)
    ensures n <= |line|
    ensures forall k :: 0 <= k < n ==> line[k] == '#'
    ensures n < |line| ==> line[n] != '#'
    decreases |line|
  {
    if line != [] && line[0] == '#' then 1 + LeadingHashes(line[1..]) else 0
  }

  function LevelDigit(level: nat): char
    requires 1 <= level <= 6
  {
    ('0' as int + level) as char
  }

  /** `<hN>content</hN>` for heading level `N`. */
  function HeadingTag(level: nat, content: string): string
    requires 1 <= level <= 6
  {
    "<h" + [LevelDigit(level)] + ">" + content + "</h" + [LevelDigit(level)] + ">"
  }

  /** The probes of `for i in range(6, 0, -1)` from `i` down to 1: the first
      `i` such that `line` starts with `i` hashes wins. */
  function HeadingFrom(line: string, i: nat): Option<string>
    requires i <= 6
    decreases i
  {
    if i == 0 then None
    else if StartsWith(line, Repeat('#', i)) then Some(HeadingTag(i, Strip(line[i..])))
    else HeadingFrom(line, i - 1)
  }

  /** `parse_headings`: no heading unless the line starts with `#`; otherwise the
      level is the length of the leading `#` run capped at 6, and the content is
      the rest of the line after that many `#`, stripped. */
  function ParseHeading(line: string): (r: Option<string>)
    ensures r.None? <==> !StartsWith(line, "#")
    ensures r.Some? ==>
      var n := if LeadingHashes(line) < 6 then LeadingHashes(line) else 6;
      1 <= n && r.value == HeadingTag(n, Strip(line[n..]))
  {
    HeadingFromMatchesHashRun(line, 6);
    HeadingFrom(line, 6)
  }

  lemma StartsWithHashes(line: string, i: nat)
    ensures StartsWith(line, Repeat('#', i)) <==> i <= LeadingHashes(line)
  {
  }

  lemma {:induction false} HeadingFromMatchesHashRun(line: string, i: nat)
    requires i <= 6
    ensures var n := LeadingHashes(line);
      HeadingFrom(line, i) ==
        if n == 0 || i == 0 then None
        else var m := if n < i then n else i; Some(HeadingTag(m, Strip(line[m..])))
  {
    if i > 0 {
      StartsWithHashes(line, i);
      HeadingFromMatchesHashRun(line, i - 1);
    }
  }

  /** Seven or more `#` still make a level-6 heading, whose content keeps the
      surplus `#` characters. */
  lemma SevenHashesGiveH6(line: string)
    requires LeadingHashes(line) >= 7
    ensures ParseHeading(line) == Some(HeadingTag(6, Strip(line[6..])))
    ensures Strip(line[6..]) != [] && Strip(line[6..])[0] == '#'
  {
  }

  /** A bare `#` is a level-1 heading with empty content: no space after the
      hashes is required. */
  lemma BareHashGivesEmptyH1()
    ensures ParseHeading("#") == Some("<h1></h1>")
  {
    assert LeadingHashes("#") == 1 by {
      assert LeadingHashes("#"[1..]) == 0;
    }
    assert Strip("#"[1..]) == [];
    assert LevelDigit(1) == '1';
    assert HeadingTag(1, []) == "<h1></h1>";
  }

  // ------------------------------------------------------------------- lists

  /** The end of the run of lines starting at `i` that all start with `marker`:
      every line before it starts with `marker`, and the line at it (if any)
      does not. */
  function ListEnd(lines: seq<string>, i: nat, marker: string): (j: nat)
    ensures i <= j
    ensures i <= |lines| ==> j <= |lines|
    ensures i > |lines| ==> j == i
    ensures forall k :: i <= k < j ==> StartsWith(lines[k], marker)
    ensures j < |lines| ==> !StartsWith(lines[j], marker)
    decreases |lines| - i
  {
    if i < |lines| && StartsWith(lines[i], marker) then ListEnd(lines, i + 1, marker) else i
  }

  /** One `<li>` element: the line after its two marker characters, stripped. */
  function ListItem(line: string): string {
    "<li>" + Strip(Drop(line, 2)) + "</li>"
  }

  /** One `<li>` element per line of `lines[i..j]`, in order. */
  function ListItems(lines: seq<string>, i: nat, j: nat): (r: seq<string>)
    requires i <= j && (i == j || j <= |lines|)
    ensures |r| == j - i
    decreases j - i
  {
    if i == j then [] else ListItems(lines, i, j - 1) + [ListItem(lines[j - 1])]
  }

  lemma {:induction false} ListItemsAt(lines: seq<string>, i: nat, j: nat, k: nat)
    requires i <= k < j <= |lines|
    ensures ListItems(lines, i, j)[k - i] == ListItem(lines[k])
    decreases j - i
  {
    assert ListItems(lines, i, j) == ListItems(lines, i, j - 1) + [ListItem(lines[j - 1])];
    if k < j - 1 {
      ListItemsAt(lines, i, j - 1, k);
    }
  }

  /** The list fragment for `lines[i..j]`: the opening tag, one item per line,
      the closing tag, joined by newlines. */
  function ListHtml(lines: seq<string>, i: nat, j: nat, open: string, close: string): string
    requires i <= j && (i == j || j <= |lines|)
  {
    Join([open] + ListItems(lines, i, j) + [close], "\n")
  }

  /** The loop shared by `parse_unordered_list` and `parse_ordered_list`. */
  method ParseList(lines: seq<string>, index: nat, marker: string, open: string, close: string)
    returns (html: string, next: nat)
    ensures next == ListEnd(lines, index, marker)
    ensures html == ListHtml(lines, index, next, open, close)
  {
    var parts := [open];
    next := index;
    while next < |lines| && StartsWith(lines[next], marker)
      invariant index <= next && (next == index || next <= |lines|)
      invariant parts == [open] + ListItems(lines, index, next)
      invariant ListEnd(lines, next, marker) == ListEnd(lines, index, marker)
      decreases |lines| - next
    {
      ghost var before := parts;
      parts := parts + [ListItem(lines[next])];
      ListStep(lines, index, next, open, before, parts);
      next := next + 1;
    }
    parts := parts + [close];
    html := Join(parts, "\n");
  }

  /** One pass of the list loop appends the item of line `j`. */
  lemma ListStep(lines: seq<string>, i: nat, j: nat, open: string, before: seq<string>, after: seq<string>)
    requires i <= j < |lines| && before == [open] + ListItems(lines, i, j)
    requires after == before + [ListItem(lines[j])]
    ensures after == [open] + ListItems(lines, i, j + 1)
  {
    AppendAssoc([open], ListItems(lines, i, j), [ListItem(lines[j])]);
  }

  /** `parse_unordered_list`: consumes the maximal run of lines starting with `- `. */
  method ParseUnorderedList(lines: seq<string>, index: nat) returns (html: string, next: nat)
    ensures next == ListEnd(lines, index, "- ")
    ensures html == ListHtml(lines, index, next, "<ul>", "</ul>")
  {
    html, next := ParseList(lines, index, "- ", "<ul>", "</ul>");
  }

  /** `parse_ordered_list`: consumes the maximal run of lines starting with `* `. */
  method ParseOrderedList(lines: seq<string>, index: nat) returns (html: string, next: nat)
    ensures next == ListEnd(lines, index, "* ")
    ensures html == ListHtml(lines, index, next, "<ol>", "</ol>")
  {
    html, next := ParseList(lines, index, "* ", "<ol>", "</ol>");
  }

  /** A `- ` line ends an ordered run at once, and a `* ` line an unordered one. */
  lemma ListKindsExclude(lines: seq<string>, i: nat)
    requires i < |lines|
    ensures StartsWith(lines[i], "- ") ==> ListEnd(lines, i, "* ") == i
    ensures StartsWith(lines[i], "* ") ==> ListEnd(lines, i, "- ") == i
  {
  }

  // -------------------------------------------------------------- paragraphs

  /** The raw-line test of `parse_paragraph`: a line starting with `#`, `-` or
      `*` ends a paragraph. */
  predicate StartsBlock(line: string) {
    StartsWith(line, "#") || StartsWith(line, "-") || StartsWith(line, "*")
  }

  /** The end of the run of lines starting at `i` that do not start a block:
      blank lines belong to the run. */
  function ParagraphEnd(lines: seq<string>, i: nat): (j: nat)
    ensures i <= j
    ensures i <= |lines| ==> j <= |lines|
    ensures i > |lines| ==> j == i
    ensures forall k :: i <= k < j ==> !StartsBlock(lines[k])
    ensures j < |lines| ==> StartsBlock(lines[j])
    decreases |lines| - i
  {
    if i < |lines| && !StartsBlock(lines[i]) then ParagraphEnd(lines, i + 1) else i
  }

  /** What one pass of the paragraph loop emits for line `k`: nothing for a
      blank line; otherwise the stripped line, followed by `<br/>` when a next
      raw line exists and does not start a block. */
  function ParagraphPart(lines: seq<string>, k: nat): seq<string>
    requires k < |lines|
  {
    var s := Strip(lines[k]);
    if s == [] then []
    else [s] + (if k + 1 < |lines| && !StartsBlock(lines[k + 1]) then ["<br/>"] else [])
  }

  /** The parts the paragraph loop emits for lines `i` up to `j`. */
  function ParagraphParts(lines: seq<string>, i: nat, j: nat): seq<string>
    requires i <= j && (i == j || j <= |lines|)
    decreases j - i
  {
    if i == j then [] else ParagraphPart(lines, i) + ParagraphParts(lines, i + 1, j)
  }

  lemma {:induction false} ParagraphPartsAppend(lines: seq<string>, i: nat, j: nat)
    requires i <= j < |lines|
    ensures ParagraphParts(lines, i, j + 1) == ParagraphParts(lines, i, j) + ParagraphPart(lines, j)
    decreases j - i
  {
    if i < j {
      ParagraphPartsAppend(lines, i + 1, j);
      AppendAssoc(ParagraphPart(lines, i), ParagraphParts(lines, i + 1, j), ParagraphPart(lines, j));
    }
  }

  /** One pass of the paragraph loop appends the part of line `j`. */
  lemma ParagraphStep(lines: seq<string>, i: nat, j: nat, before: seq<string>, after: seq<string>)
    requires i <= j < |lines| && before == ["<p>"] + ParagraphParts(lines, i, j)
    requires var s := Strip(lines[j]);
      after == if s == [] then before
               else if j + 1 < |lines| && !StartsBlock(lines[j + 1]) then before + [s] + ["<br/>"]
               else before + [s]
    ensures after == ["<p>"] + ParagraphParts(lines, i, j + 1)
  {
    ParagraphPartsAppend(lines, i, j);
    AppendAssoc(["<p>"], ParagraphParts(lines, i, j), ParagraphPart(lines, j));
    AppendAssoc(before, [Strip(lines[j])], ["<br/>"]);
  }

  /** The paragraph fragment for `lines[i..j]`. */
  function ParagraphHtml(lines: seq<string>, i: nat, j: nat): string
    requires i <= j && (i == j || j <= |lines|)
  {
    Join(["<p>"] + ParagraphParts(lines, i, j) + ["</p>"], "\n")
  }

  /** `parse_paragraph`: consumes lines up to the first one that starts a block. */
  method ParseParagraph(lines: seq<string>, index: nat) returns (html: string, next: nat)
    ensures next == ParagraphEnd(lines, index)
    ensures html == ParagraphHtml(lines, index, next)
  {
    var parts := ["<p>"];
    next := index;
    while next < |lines| && !StartsBlock(lines[next])
      invariant index <= next && (next == index || next <= |lines|)
      invariant parts == ["<p>"] + ParagraphParts(lines, index, next)
      invariant ParagraphEnd(lines, next) == ParagraphEnd(lines, index)
      decreases |lines| - next
    {
      ghost var before := parts;
      var line := Strip(lines[next]);
      if line != [] {
        parts := parts + [line];
        if next + 1 < |lines| && !StartsBlock(lines[next + 1]) {
          parts := parts + ["<br/>"];
        }
      }
      ParagraphStep(lines, index, next, before, parts);
      next := next + 1;
    }
    parts := parts + ["</p>"];
    html := Join(parts, "\n");
  }

  /** A reference description of a paragraph run: each non-blank line of the run,
      stripped, followed by `<br/>` exactly when it is not the run's last line
      (blank lines count as lines of the run but emit nothing). */
  function RunParts(run: seq<string>): seq<string>
    decreases |run|
  {
    if run == [] then []
    else
      var s := Strip(run[0]);
      (if s == [] then [] else [s] + (if |run| > 1 then ["<br/>"] else [])) + RunParts(run[1..])
  }

  /** Looking at the next raw line, as `parse_paragraph` does, decides `<br/>`
      exactly as the reference does: inside a maximal paragraph run, the next
      raw line exists and does not start a block exactly when the current line
      is not the last line of the run. */
  lemma {:induction false} ParagraphPartsMatchRun(lines: seq<string>, i: nat)
    requires i <= |lines|
    ensures var j := ParagraphEnd(lines, i);
      ParagraphParts(lines, i, j) == RunParts(lines[i..j])
  {
    var j := ParagraphEnd(lines, i);
    ParagraphSuffixMatchesRun(lines, i, j, i);
  }

  lemma {:induction false} ParagraphSuffixMatchesRun(lines: seq<string>, i: nat, j: nat, m: nat)
    requires i <= m <= j && j == ParagraphEnd(lines, i) && j <= |lines|
    ensures ParagraphParts(lines, m, j) == RunParts(lines[m..j])
    decreases j - m
  {
    if m < j {
      ParagraphSuffixMatchesRun(lines, i, j, m + 1);
      var run := lines[m..j];
      assert run[0] == lines[m];
      assert run[1..] == lines[m + 1..j];
      assert (m + 1 < |lines| && !StartsBlock(lines[m + 1])) <==> |run| > 1;
    }
  }

}
