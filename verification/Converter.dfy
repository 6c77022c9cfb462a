/**
 * The driver of `markdown_to_html`: the loop that dispatches on the stripped
 * current line, collects one HTML fragment per block in input order, and then
 * runs the inline passes once over the fragments joined by newlines.
 *
 * A list or paragraph parser that consumes no line leaves the index where it
 * was, and the source loop then repeats the same iteration forever. `StepAt`
 * is one iteration, `Assemble` the whole loop with that case made explicit
 * (`Stuck`), and `Iterate` the loop as written, unrolled a given number of
 * times; the lemmas tie the two together.
 */
module Converter {
  import opened Options
  import opened Strings
  import opened Blocks
  import opened Inline

  /** One iteration of the loop: the fragment it appends and the index it
      leaves for the next one. */
  datatype Step = Step(html: string, next: nat)

  /** The iteration at line `i`, dispatching on the stripped line: a heading
      moves on by one line; a line that looks like a list item or a paragraph
      goes on where the sub-parser, which tests the raw line, stopped. */
  function StepAt(lines: seq<string>, i: nat): (st: Step)
    requires i < |lines|
    ensures i <= st.next <= |lines|
  {
    var line := Strip(lines[i]);
    var heading := ParseHeading(line);
    if heading.Some? then Step(heading.value, i + 1)
    else if StartsWith(line, "- ") then
      var j := ListEnd(lines, i, "- ");
      Step(ListHtml(lines, i, j, "<ul>", "</ul>"), j)
    else if StartsWith(line, "* ") then
      var j := ListEnd(lines, i, "* ");
      Step(ListHtml(lines, i, j, "<ol>", "</ol>"), j)
    else
      var j := ParagraphEnd(lines, i);
      Step(ParagraphHtml(lines, i, j), j)
  }

  /** No iteration goes back or past the end. */
  predicate Forward(steps: seq<Step>) {
    forall i :: 0 <= i < |steps| ==> i <= steps[i].next <= |steps|
  }

  /** The iteration at every line: what the loop would do if it reached it. */
  function Steps(lines: seq<string>): (r: seq<Step>)
    ensures |r| == |lines| && Forward(r)
  {
    seq(|lines|, i requires 0 <= i < |lines| => StepAt(lines, i))
  }

  /** The loop makes no progress at line `i`. */
  predicate Stalls(lines: seq<string>, i: nat)
    requires i < |lines|
  {
    StepAt(lines, i).next == i
  }

  /** The fragments of the lines from `i` on, or the first line reached from
      `i` at which the loop makes no progress. */
  datatype Outcome = Done(fragments: seq<string>) | Stuck(at: nat)

  function Assemble(steps: seq<Step>, i: nat): (r: Outcome)
    requires Forward(steps) && i <= |steps|
    ensures r.Stuck? ==> i <= r.at < |steps| && steps[r.at].next == r.at
    decreases |steps| - i
  {
    if i == |steps| then Done([])
    else if steps[i].next == i then Stuck(i)
    else Prepend([steps[i].html], Assemble(steps, steps[i].next))
  }

  /** Fragments collected so far, in front of those still to come. */
  function Prepend(acc: seq<string>, r: Outcome): Outcome {
    match r
    case Done(f) => Done(acc + f)
    case Stuck(k) => Stuck(k)
  }

  lemma PrependTwice(a: seq<string>, b: seq<string>, r: Outcome)
    ensures Prepend(a + b, r) == Prepend(a, Prepend(b, r))
  {
  }

  /** The source loop `while index < len(lines)` run for at most `fuel`
      iterations: the fragments when it exits, `None` when it has not exited yet. */
  function Iterate(steps: seq<Step>, index: nat, acc: seq<string>, fuel: nat): (r: Option<seq<string>>)
    ensures r.Some? ==> |acc| <= |r.value| && r.value[..|acc|] == acc
    decreases fuel
  {
    if index >= |steps| then Some(acc)
    else if fuel == 0 then None
    else Iterate(steps, steps[index].next, acc + [steps[index].html], fuel - 1)
  }

  /** When the lines from `i` on assemble, the source loop exits after at most
      one iteration per remaining line, with the same fragments in the same order. */
  lemma {:induction false} IterateExits(steps: seq<Step>, i: nat, acc: seq<string>, fuel: nat)
    requires Forward(steps) && i <= |steps| && Assemble(steps, i).Done?
    requires fuel >= |steps| - i
    ensures Iterate(steps, i, acc, fuel) == Some(acc + Assemble(steps, i).fragments)
    decreases |steps| - i
  {
    if i < |steps| {
      var st := steps[i];
      IterateExits(steps, st.next, acc + [st.html], fuel - 1);
      var rest := Assemble(steps, st.next).fragments;
      assert acc + [st.html] + rest == acc + ([st.html] + rest);
    } else {
      assert acc + [] == acc;
    }
  }

  /** When the loop reaches a line at which it makes no progress, it never
      exits, however many iterations it is given. */
  lemma {:induction false} IterateNeverExits(steps: seq<Step>, i: nat, acc: seq<string>, fuel: nat)
    requires Forward(steps) && i <= |steps| && Assemble(steps, i).Stuck?
    ensures Iterate(steps, i, acc, fuel) == None
    decreases fuel
  {
    if fuel > 0 {
      IterateNeverExits(steps, steps[i].next, acc + [steps[i].html], fuel - 1);
    }
  }

  /** A run of iterations none of which stalls assembles, and the loop exits. */
  lemma {:induction false} NoStallAssembles(steps: seq<Step>, i: nat)
    requires Forward(steps) && i <= |steps|
    requires forall k :: i <= k < |steps| ==> steps[k].next != k
    ensures Assemble(steps, i).Done?
    ensures forall fuel :: fuel >= |steps| - i ==> Iterate(steps, i, [], fuel).Some?
    decreases |steps| - i
  {
    if i < |steps| {
      NoStallAssembles(steps, steps[i].next);
    }
    forall fuel | fuel >= |steps| - i ensures Iterate(steps, i, [], fuel).Some? {
      IterateExits(steps, i, [], fuel);
    }
  }

  /** The loop stalls at a line exactly when the stripped line passes the
      driver's prefix test for a list or a paragraph but the raw line fails
      the sub-parser's own test. */
  lemma StallsIff(lines: seq<string>, i: nat)
    requires i < |lines|
    ensures var line, raw := Strip(lines[i]), lines[i];
      Stalls(lines, i) <==>
        && !StartsWith(line, "#")
        && (if StartsWith(line, "- ") then !StartsWith(raw, "- ")
            else if StartsWith(line, "* ") then !StartsWith(raw, "* ")
            else StartsBlock(raw))
  {
  }

  /** A blank line passes neither list test, and a paragraph does not end at it. */
  lemma BlankStart(raw: string)
    requires AllSpace(raw)
    ensures var line := Strip(raw);
      !StartsWith(line, "- ") && !StartsWith(line, "* ") && !StartsBlock(raw)
  {
  }

  /** A line that starts with `#` is a heading; one that starts with any other
      character but whitespace, `-` and `*` passes neither list test, and a
      paragraph does not end at it. */
  lemma PlainStart(raw: string)
    requires raw != [] && !IsSpace(raw[0]) && raw[0] != '-' && raw[0] != '*'
    ensures var line := Strip(raw);
      StartsWith(line, "#") || (!StartsWith(line, "- ") && !StartsWith(line, "* ") && !StartsBlock(raw))
  {
    StripShape(raw);
    var line := Strip(raw);
    if raw[0] == '#' {
      assert StartsWith(line, "#") by { assert line[..1] == [raw[0]]; }
    } else {
      assert !StartsBlock(raw) by { assert raw[..1] == [raw[0]]; }
      assert !StartsWith(line, "- ") && !StartsWith(line, "* ") by { assert line[0] == raw[0]; }
    }
  }

  /** Such a line never stalls the loop. */
  lemma PlainStartNeverStalls(lines: seq<string>, i: nat)
    requires i < |lines|
    requires var raw := lines[i];
      AllSpace(raw) || (!IsSpace(raw[0]) && raw[0] != '-' && raw[0] != '*')
    ensures !Stalls(lines, i)
  {
    if AllSpace(lines[i]) {
      BlankStart(lines[i]);
    } else {
      PlainStart(lines[i]);
    }
    StallsIff(lines, i);
  }

  /** What the conversion produces: the HTML text, or the index of the line at
      which the source loop would go on forever. */
  datatype Conversion = Converted(html: string) | Diverges(index: nat)

  /** The conversion of `lines`, as the loop and the inline passes define it:
      it diverges only at a line that stalls. */
  function Convert(lines: seq<string>, md5: string -> string): (r: Conversion)
    ensures r.Diverges? ==> r.index < |lines| && Stalls(lines, r.index)
  {
    match Assemble(Steps(lines), 0)
    case Done(fragments) => Converted(InlinePasses(Join(fragments, "\n"), md5))
    case Stuck(k) => Diverges(k)
  }

  /** `markdown_to_html` with the file read replaced by `lines` (as
      `readlines()` returns them, each possibly ending in a newline), the file
      write by the result, and the MD5 digest by `md5`. */
  method MarkdownToHtml(lines: seq<string>, md5: string -> string) returns (result: Conversion)
    ensures result == Convert(lines, md5)
  {
    ghost var steps := Steps(lines);
    var htmlLines: seq<string> := [];
    var index: nat := 0;
    while index < |lines|
      invariant index <= |lines|
      invariant Assemble(steps, 0) == Prepend(htmlLines, Assemble(steps, index))
      decreases |lines| - index
    {
      var line := Strip(lines[index]);
      var heading := ParseHeading(line);
      var html: string, next: nat;
      if heading.Some? {
        html, next := heading.value, index + 1;
      } else if StartsWith(line, "- ") {
        html, next := ParseUnorderedList(lines, index);
      } else if StartsWith(line, "* ") {
        html, next := ParseOrderedList(lines, index);
      } else {
        html, next := ParseParagraph(lines, index);
      }
      assert steps[index] == StepAt(lines, index) == Step(html, next);
      if next == index {
        // the source repeats this iteration forever
        return Diverges(index);
      }
      PrependTwice(htmlLines, [html], Assemble(steps, next));
      htmlLines := htmlLines + [html];
      index := next;
    }
    assert htmlLines + [] == htmlLines;
    result := Converted(InlinePasses(Join(htmlLines, "\n"), md5));
  }

  // ------------------------------------------------------------ properties

  /** The loop diverges at the first line when that line stalls. */
  lemma FirstLineStalls(lines: seq<string>, md5: string -> string)
    requires |lines| > 0 && Stalls(lines, 0)
    ensures Convert(lines, md5) == Diverges(0)
  {
  }

  /** `-x`: the stripped line is taken for a paragraph, which the raw `-`
      ends at once, so the source loops forever. */
  lemma DashLineDiverges(md5: string -> string)
    ensures Convert(["-x\n"], md5) == Diverges(0)
  {
    var raw := "-x\n";
    assert Stalls([raw], 0) by {
      assert Strip(raw) == "-x" by {
        assert SkipSpaceBack(raw, 0, 3) == 2;
      }
      StallsIff([raw], 0);
    }
    FirstLineStalls([raw], md5);
  }

  /** `**b**`: the same with `*`. */
  lemma BoldLineDiverges(md5: string -> string)
    ensures Convert(["**b**\n"], md5) == Diverges(0)
  {
    var raw := "**b**\n";
    assert Stalls([raw], 0) by {
      assert Strip(raw) == "**b**" by {
        assert SkipSpaceBack(raw, 0, 6) == 5;
      }
      assert Strip(raw)[..2] == "**" && raw[..1] == "*";
      StallsIff([raw], 0);
    }
    FirstLineStalls([raw], md5);
  }

  lemma StripIndented()
    ensures Strip("  - a\n") == "- a"
  {
    var raw := "  - a\n";
    assert Strip(raw) == Strip(raw[1..]) == Strip(raw[2..]);
    assert SkipSpaceBack(raw[2..], 0, 4) == 3;
  }

  /** An indented `  - a`: the stripped line passes the list test, the raw
      line does not, so the list parser consumes nothing. */
  lemma IndentedItemDiverges(md5: string -> string)
    ensures Convert(["  - a\n"], md5) == Diverges(0)
  {
    var raw := "  - a\n";
    assert Stalls([raw], 0) by {
      StripIndented();
      StallsIff([raw], 0);
    }
    FirstLineStalls([raw], md5);
  }

  /** An empty document converts to the empty text. */
  lemma EmptyConverts(md5: string -> string)
    ensures Convert([], md5) == Converted("")
  {
  }

  /** The inline passes applied to each part on its own. */
  function EachInline(parts: seq<string>, md5: string -> string): (r: seq<string>)
    ensures |r| == |parts|
    decreases |parts|
  {
    if parts == [] then [] else [InlinePasses(parts[0], md5)] + EachInline(parts[1..], md5)
  }

  /** Running the passes once over the joined fragments is the same as running
      them over each fragment and joining the results: no pass reaches from
      one fragment into the next. */
  lemma {:induction false} InlinePassesJoin(parts: seq<string>, md5: string -> string)
    ensures InlinePasses(Join(parts, "\n"), md5) == Join(EachInline(parts, md5), "\n")
    decreases |parts|
  {
    if |parts| == 0 {
      EmptyConverts(md5);
    } else if |parts| > 1 {
      InlinePassesJoin(parts[1..], md5);
      InlinePassesSplitAtNewline(parts[0], Join(parts[1..], "\n"), md5);
      assert EachInline(parts, md5)[1..] == EachInline(parts[1..], md5);
    }
  }

  /** A converted document is the concatenation, line by line, of its
      fragments each rewritten by the inline passes. */
  lemma ConvertedByFragment(lines: seq<string>, md5: string -> string)
    requires Assemble(Steps(lines), 0).Done?
    ensures Convert(lines, md5)
      == Converted(Join(EachInline(Assemble(Steps(lines), 0).fragments, md5), "\n"))
  {
    InlinePassesJoin(Assemble(Steps(lines), 0).fragments, md5);
  }

}
