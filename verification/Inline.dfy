/**
 * The inline passes of markdown2html.py. Each pass is a `re.sub` whose pattern
 * is an opening delimiter, a lazy group `(.+?)` and a closing delimiter; the
 * group matches one or more characters other than a newline. `Scan` is where
 * that pattern matches, written as an explicit scan over positions: at each
 * position, from the left, it tries the shortest group that the closing
 * delimiter follows; after a match, scanning resumes behind it. `Subst` then
 * puts the replacement in place of every match.
 */
module Inline {
  import opened Options
  import opened Strings

  predicate NoNewline(s: string) {
    forall i :: 0 <= i < |s| ==> s[i] != '\n'
  }

  /** `p` occurs in `s` at position `i`. */
  predicate OccursAt(s: string, i: nat, p: string) {
    i + |p| <= |s| && forall j :: 0 <= j < |p| ==> s[i + j] == p[j]
  }

  /** A group that starts at `g` can end at `e`: it is non-empty, holds no
      newline, and `close` occurs right after it. */
  predicate ClosesAt(s: string, g: nat, e: nat, close: string) {
    g < e <= |s| && (forall j :: g <= j < e ==> s[j] != '\n') && OccursAt(s, e, close)
  }

  /** The lazy group's search for its end, trying `e`, `e + 1`, ...
      (`CloseFromSpec` states what it finds). */
  function CloseFrom(s: string, e: nat, close: string): (r: Option<nat>)
    requires 1 <= e
    ensures r.Some? ==> e <= r.value && r.value + |close| <= |s|
    decreases |s| + 1 - e
  {
    if e > |s| || s[e - 1] == '\n' then None
    else if OccursAt(s, e, close) then Some(e)
    else CloseFrom(s, e + 1, close)
  }

  /** The search finds the shortest group that `close` follows, and finds
      nothing only when no group can be closed. */
  lemma {:induction false} CloseFromSpec(s: string, g: nat, e: nat, close: string)
    requires g < e <= |s| + 1
    requires forall j :: g <= j < e - 1 ==> s[j] != '\n'
    requires forall m :: g < m < e ==> !ClosesAt(s, g, m, close)
    ensures var r := CloseFrom(s, e, close);
      && (r.Some? ==> ClosesAt(s, g, r.value, close))
      && (r.Some? ==> forall m :: g < m < r.value ==> !ClosesAt(s, g, m, close))
      && (r.None? ==> forall m :: !ClosesAt(s, g, m, close))
    decreases |s| + 1 - e
  {
    if e <= |s| && s[e - 1] != '\n' && !OccursAt(s, e, close) {
      CloseFromSpec(s, g, e + 1, close);
    }
  }

  /** Where the shortest group that starts at `g` ends, if one can. */
  function GroupEnd(s: string, g: nat, close: string): (r: Option<nat>)
    ensures r.Some? ==> g < r.value && r.value + |close| <= |s|
  {
    CloseFrom(s, g + 1, close)
  }

  lemma {:induction false} GroupEndSpec(s: string, g: nat, close: string)
    ensures var r := GroupEnd(s, g, close);
      && (r.Some? ==> ClosesAt(s, g, r.value, close))
      && (r.Some? ==> forall m :: g < m < r.value ==> !ClosesAt(s, g, m, close))
      && (r.None? ==> forall m :: !ClosesAt(s, g, m, close))
  {
    if g < |s| {
      CloseFromSpec(s, g, g + 1, close);
    }
  }

  /** The group ends at the first place it can. */
  lemma {:induction false} GroupEndIs(s: string, g: nat, e: nat, close: string)
    requires ClosesAt(s, g, e, close)
    requires forall m :: g < m < e ==> !ClosesAt(s, g, m, close)
    ensures GroupEnd(s, g, close) == Some(e)
  {
    GroupEndSpec(s, g, close);
  }

  /** What the scan of one pattern cuts a text into: characters copied as
      they are, and matches, of which only the group is kept. */
  datatype Piece = Text(c: char) | Match(group: string)

  /** A match of the pattern starts at position `i` of `s`. */
  predicate MatchAt(s: string, i: nat, open: string, close: string) {
    OccursAt(s, i, open) && GroupEnd(s, i + |open|, close).Some?
  }

  /** The piece the scan takes at position `i`: the match that starts there,
      or else the character there. */
  function PieceAt(s: string, i: nat, open: string, close: string): Piece
    requires i < |s|
  {
    if MatchAt(s, i, open, close) then Match(s[i + |open|..GroupEnd(s, i + |open|, close).value])
    else Text(s[i])
  }

  /** Where the scan goes on after the piece at `i`: behind the match, or at
      the next character. */
  function NextAt(s: string, i: nat, open: string, close: string): (n: nat)
    requires i < |s|
    ensures i < n <= |s|
  {
    if MatchAt(s, i, open, close) then GroupEnd(s, i + |open|, close).value + |close| else i + 1
  }

  /** Where `re.sub(open (.+?) close, ..., s)` finds its matches in `s` from
      position `i` on. */
  function ScanFrom(s: string, i: nat, open: string, close: string): seq<Piece>
    decreases |s| - i
  {
    if i >= |s| then []
    else [PieceAt(s, i, open, close)] + ScanFrom(s, NextAt(s, i, open, close), open, close)
  }

  function Scan(s: string, open: string, close: string): seq<Piece> {
    ScanFrom(s, 0, open, close)
  }

  /** The pieces of a text with no match in it. */
  function Plain(s: string): (r: seq<Piece>)
    ensures |r| == |s| && forall i :: 0 <= i < |s| ==> r[i] == Text(s[i])
  {
    if s == [] then [] else [Text(s[0])] + Plain(s[1..])
  }

  // ----------------------------------------------------- shifting

  lemma {:induction false} OccursShift(p: string, t: string, i: nat, x: string)
    ensures OccursAt(p + t, |p| + i, x) <==> OccursAt(t, i, x)
  {
  }

  lemma {:induction false} CloseFromShift(p: string, t: string, e: nat, close: string)
    requires 1 <= e
    ensures var r := CloseFrom(t, e, close);
      CloseFrom(p + t, |p| + e, close) == if r.Some? then Some(|p| + r.value) else None
    decreases |t| + 1 - e
  {
    var s := p + t;
    if e <= |t| {
      assert s[|p| + e - 1] == t[e - 1];
      OccursShift(p, t, e, close);
      CloseFromShift(p, t, e + 1, close);
    }
  }

  /** The piece at a position, and where the scan goes on, do not depend on
      the text in front of it. */
  lemma {:induction false} PieceShift(p: string, t: string, i: nat, open: string, close: string)
    requires i < |t|
    ensures PieceAt(p + t, |p| + i, open, close) == PieceAt(t, i, open, close)
    ensures NextAt(p + t, |p| + i, open, close) == |p| + NextAt(t, i, open, close)
  {
    var s := p + t;
    OccursShift(p, t, i, open);
    CloseFromShift(p, t, i + |open| + 1, close);
    assert s[|p| + i] == t[i];
    if MatchAt(t, i, open, close) {
      var g, e := i + |open|, GroupEnd(t, i + |open|, close).value;
      assert s[|p| + g..|p| + e] == t[g..e];
    }
  }

  /** The scan from a position depends only on the text from there on. */
  lemma {:induction false} ScanShift(p: string, t: string, i: nat, open: string, close: string)
    ensures ScanFrom(p + t, |p| + i, open, close) == ScanFrom(t, i, open, close)
    decreases |t| - i
  {
    if i < |t| {
      PieceShift(p, t, i, open, close);
      ScanShift(p, t, NextAt(t, i, open, close), open, close);
    }
  }

  // ----------------------------------------------------- scanning

  /** Text in which the pattern matches nowhere is copied character by
      character; this is also what happens to an opening delimiter that no
      closing one follows. */
  lemma {:induction false} ScanFromWithoutMatch(s: string, i: nat, open: string, close: string)
    requires i <= |s|
    requires forall j :: i <= j < |s| ==> !MatchAt(s, j, open, close)
    ensures ScanFrom(s, i, open, close) == Plain(s[i..])
    decreases |s| - i
  {
    if i < |s| {
      ScanFromWithoutMatch(s, i + 1, open, close);
      assert s[i..] == [s[i]] + s[i + 1..];
      assert Plain(s[i..])[1..] == Plain(s[i + 1..]);
    }
  }

  lemma {:induction false} ScanWithoutMatch(s: string, open: string, close: string)
    requires forall i :: 0 <= i < |s| ==> !MatchAt(s, i, open, close)
    ensures Scan(s, open, close) == Plain(s)
  {
    ScanFromWithoutMatch(s, 0, open, close);
    assert s[0..] == s;
  }

  /** A match at the front is taken and the scan resumes after it: the group
      is the shortest one, so it ends where `close` first follows it. */
  lemma {:induction false} ScanMatchAtFront(open: string, x: string, close: string, rest: string)
    requires x != [] && NoNewline(x)
    requires forall m :: 1 <= m < |x| ==> !OccursAt(x + close, m, close)
    ensures Scan(open + x + close + rest, open, close) == [Match(x)] + Scan(rest, open, close)
  {
    var s := open + x + close + rest;
    var g, e := |open|, |open| + |x|;
    assert OccursAt(s, 0, open) by {
      forall j | 0 <= j < |open| ensures s[0 + j] == open[j] { }
    }
    assert ClosesAt(s, g, e, close) by {
      forall j | g <= j < e ensures s[j] != '\n' { assert s[j] == x[j - g]; }
      forall j | 0 <= j < |close| ensures s[e + j] == close[j] { }
    }
    forall m | g < m < e ensures !OccursAt(s, m, close) {
      var k := m - g;
      assert !OccursAt(x + close, k, close);
      var j :| 0 <= j < |close| && (x + close)[k + j] != close[j];
      assert s[m + j] == (x + close)[k + j];
    }
    GroupEndIs(s, g, e, close);
    assert s[g..e] == x;
    ScanShift(open + x + close, rest, 0, open, close);
  }

  /** Characters that cannot begin the opening delimiter are copied unchanged. */
  lemma {:induction false} ScanFromCopiesPrefix(p: string, s: string, i: nat, open: string, close: string)
    requires open != [] && i <= |p|
    requires forall j :: 0 <= j < |p| ==> p[j] != open[0]
    ensures ScanFrom(p + s, i, open, close) == Plain(p[i..]) + ScanFrom(p + s, |p|, open, close)
    decreases |p| - i
  {
    if i < |p| {
      var u := p + s;
      assert u[i + 0] == p[i] && p[i] != open[0];
      assert ScanFrom(u, i, open, close) == [Text(p[i])] + ScanFrom(u, i + 1, open, close);
      ScanFromCopiesPrefix(p, s, i + 1, open, close);
      assert p[i..] == [p[i]] + p[i + 1..];
      assert Plain(p[i..])[1..] == Plain(p[i + 1..]);
    }
  }

  lemma {:induction false} ScanCopiesPrefix(p: string, s: string, open: string, close: string)
    requires open != []
    requires forall j :: 0 <= j < |p| ==> p[j] != open[0]
    ensures Scan(p + s, open, close) == Plain(p) + Scan(s, open, close)
  {
    ScanFromCopiesPrefix(p, s, 0, open, close);
    assert p[0..] == p;
    ScanShift(p, s, 0, open, close);
  }

  /** A newline-free text occurs before a newline exactly when it occurs
      there with the newline and what follows appended. */
  lemma {:induction false} OccursBeforeNewline(a: string, b: string, i: nat, x: string)
    requires i <= |a| && NoNewline(x)
    ensures OccursAt(a + "\n" + b, i, x) <==> OccursAt(a, i, x)
  {
    var s := a + "\n" + b;
    if OccursAt(a, i, x) {
      forall j | 0 <= j < |x| ensures s[i + j] == x[j] { assert s[i + j] == a[i + j]; }
    }
    if |a| < i + |x| <= |s| {
      assert s[i + (|a| - i)] == '\n' && x[|a| - i] != '\n';
    }
    if OccursAt(s, i, x) {
      if i + |x| <= |a| {
        forall j | 0 <= j < |x| ensures a[i + j] == x[j] { assert s[i + j] == a[i + j]; }
      }
    }
  }

  /** The search for a group's end does not look past a newline. */
  lemma {:induction false} CloseFromBeforeNewline(a: string, b: string, e: nat, close: string)
    requires 1 <= e <= |a| + 1 && NoNewline(close)
    ensures CloseFrom(a + "\n" + b, e, close) == CloseFrom(a, e, close)
    decreases |a| + 1 - e
  {
    var s := a + "\n" + b;
    if e <= |a| {
      assert s[e - 1] == a[e - 1];
      OccursBeforeNewline(a, b, e, close);
      CloseFromBeforeNewline(a, b, e + 1, close);
    } else {
      assert s[e - 1] == '\n';
    }
  }

  /** Before a newline, the piece at a position and where the scan goes on
      do not depend on what follows the newline. */
  lemma {:induction false} PieceBeforeNewline(a: string, b: string, i: nat, open: string, close: string)
    requires NoNewline(open) && NoNewline(close)
    requires i < |a|
    ensures PieceAt(a + "\n" + b, i, open, close) == PieceAt(a, i, open, close)
    ensures NextAt(a + "\n" + b, i, open, close) == NextAt(a, i, open, close)
  {
    var s := a + "\n" + b;
    OccursBeforeNewline(a, b, i, open);
    assert s[i] == a[i];
    if i + |open| <= |a| {
      CloseFromBeforeNewline(a, b, i + |open| + 1, close);
    }
    if MatchAt(a, i, open, close) {
      var g, e := i + |open|, GroupEnd(a, i + |open|, close).value;
      assert s[g..e] == a[g..e];
    }
  }

  /** No match reaches across a newline: the scan of the text before a
      newline is unchanged by it, and the text after it is scanned on its own. */
  lemma {:induction false} ScanFromSplitsAtNewline(a: string, b: string, i: nat, open: string, close: string)
    requires open != [] && NoNewline(open) && NoNewline(close)
    requires i <= |a|
    ensures ScanFrom(a + "\n" + b, i, open, close)
         == ScanFrom(a, i, open, close) + [Text('\n')] + Scan(b, open, close)
    decreases |a| - i
  {
    var s := a + "\n" + b;
    if i == |a| {
      OccursBeforeNewline(a, b, i, open);
      assert s[i + 0] == '\n' && open[0] != '\n';
      ScanShift(a + "\n", b, 0, open, close);
    } else {
      PieceBeforeNewline(a, b, i, open, close);
      var n := NextAt(a, i, open, close);
      ScanFromSplitsAtNewline(a, b, n, open, close);
      AppendAssoc([PieceAt(a, i, open, close)], ScanFrom(a, n, open, close), [Text('\n')]);
      AppendAssoc([PieceAt(a, i, open, close)], ScanFrom(a, n, open, close) + [Text('\n')], Scan(b, open, close));
    }
  }

  lemma {:induction false} ScanSplitsAtNewline(a: string, b: string, open: string, close: string)
    requires open != [] && NoNewline(open) && NoNewline(close)
    ensures Scan(a + "\n" + b, open, close)
         == Scan(a, open, close) + [Text('\n')] + Scan(b, open, close)
  {
    ScanFromSplitsAtNewline(a, b, 0, open, close);
  }

  // ----------------------------------------------------- replacement

  /** What a pass puts in place of a match, given the group: the templates
      `<b>\1</b>` and `<em>\1</em>`, the MD5 hex digest of the group, and the
      group without its `c` and `C` characters. The digest is a parameter. */
  datatype Replacement = Bold | Emphasis | Digest(md5: string -> string) | WithoutC

  function Replace(w: Replacement, x: string): string {
    match w
    case Bold => "<b>" + x + "</b>"
    case Emphasis => "<em>" + x + "</em>"
    case Digest(md5) => md5(x)
    case WithoutC => StripC(x)
  }

  /** The text a scan stands for once every match is replaced by `w`. */
  function Render(ps: seq<Piece>, w: Replacement): string
    decreases |ps|
  {
    if ps == [] then []
    else
      (match ps[0] case Text(c) => [c] case Match(g) => Replace(w, g))
      + Render(ps[1..], w)
  }

  /** Rendering works piece by piece. */
  lemma {:induction false} RenderAppend(p: seq<Piece>, q: seq<Piece>, w: Replacement)
    ensures Render(p + q, w) == Render(p, w) + Render(q, w)
    decreases |p|
  {
    if p != [] {
      assert (p + q)[0] == p[0];
      assert (p + q)[1..] == p[1..] + q;
      RenderAppend(p[1..], q, w);
    } else {
      assert p + q == q;
    }
  }

  lemma RenderAroundNewline(p: seq<Piece>, q: seq<Piece>, w: Replacement)
    ensures Render(p + [Text('\n')] + q, w) == Render(p, w) + "\n" + Render(q, w)
  {
    RenderAppend(p + [Text('\n')], q, w);
    RenderAppend(p, [Text('\n')], w);
  }

  /** Copied characters render as themselves. */
  lemma {:induction false} RenderPlain(s: string, w: Replacement)
    ensures Render(Plain(s), w) == s
    decreases |s|
  {
    if s != [] {
      assert Plain(s)[1..] == Plain(s[1..]);
      RenderPlain(s[1..], w);
    }
  }

  /** `re.sub(open (.+?) close, replacement, s)` for literal delimiters. */
  function Subst(s: string, open: string, close: string, w: Replacement): string {
    Render(Scan(s, open, close), w)
  }

  /** Text in which the pattern matches nowhere comes back unchanged. */
  lemma {:induction false} SubstWithoutMatch(s: string, open: string, close: string, w: Replacement)
    requires forall i :: 0 <= i < |s| ==> !MatchAt(s, i, open, close)
    ensures Subst(s, open, close, w) == s
  {
    ScanWithoutMatch(s, open, close);
    RenderPlain(s, w);
  }

  /** Text in which no character can begin the opening delimiter comes back
      unchanged. */
  lemma {:induction false} SubstWithoutOpen(s: string, open: string, close: string, w: Replacement)
    requires open != []
    requires forall i :: 0 <= i < |s| ==> s[i] != open[0]
    ensures Subst(s, open, close, w) == s
  {
    ScanCopiesPrefix(s, [], open, close);
    assert s + [] == s;
    assert Plain(s) + [] == Plain(s);
    RenderPlain(s, w);
  }

  /** A match at the front is replaced, and the rest is rewritten on its own. */
  lemma {:induction false} SubstMatchAtFront(open: string, x: string, close: string, rest: string, w: Replacement)
    requires x != [] && NoNewline(x)
    requires forall m :: 1 <= m < |x| ==> !OccursAt(x + close, m, close)
    ensures Subst(open + x + close + rest, open, close, w) == Replace(w, x) + Subst(rest, open, close, w)
  {
    ScanMatchAtFront(open, x, close, rest);
    RenderAppend([Match(x)], Scan(rest, open, close), w);
  }

  /** Characters that cannot begin the opening delimiter are copied unchanged,
      and the rest is rewritten on its own. */
  lemma {:induction false} SubstCopiesPrefix(p: string, s: string, open: string, close: string, w: Replacement)
    requires open != []
    requires forall i :: 0 <= i < |p| ==> p[i] != open[0]
    ensures Subst(p + s, open, close, w) == p + Subst(s, open, close, w)
  {
    ScanCopiesPrefix(p, s, open, close);
    RenderAppend(Plain(p), Scan(s, open, close), w);
    RenderPlain(p, w);
  }

  /** No substitution reaches across a newline: the text before a newline and
      the text after it are rewritten independently. */
  lemma {:induction false} SubstSplitsAtNewline(a: string, b: string, open: string, close: string, w: Replacement)
    requires open != [] && NoNewline(open)
    requires NoNewline(close)
    ensures Subst(a + "\n" + b, open, close, w)
         == Subst(a, open, close, w) + "\n" + Subst(b, open, close, w)
  {
    ScanSplitsAtNewline(a, b, open, close);
    RenderAroundNewline(Scan(a, open, close), Scan(b, open, close), w);
  }

  // ----------------------------------------------------- the four passes

  /** `parse_bold_and_emphasis`: `**X**` becomes bold, then `__X__` emphasis. */
  function ParseBoldAndEmphasis(text: string): string {
    Subst(Subst(text, "**", "**", Bold), "__", "__", Emphasis)
  }

  /** `re.sub(r'[cC]', '', x)`: every `c` and `C` removed. */
  function StripC(x: string): (r: string)
    ensures forall i :: 0 <= i < |r| ==> r[i] != 'c' && r[i] != 'C'
    ensures |r| <= |x|
    decreases |x|
  {
    if x == [] then []
    else (if x[0] == 'c' || x[0] == 'C' then [] else [x[0]]) + StripC(x[1..])
  }

  /** `parse_special_syntax`: `[[X]]` becomes the MD5 hex digest of `X`, then
      `((X))` becomes `X` without its `c` and `C` characters. */
  function ParseSpecialSyntax(text: string, md5: string -> string): string {
    Subst(Subst(text, "[[", "]]", Digest(md5)), "((", "))", WithoutC)
  }

  /** The four passes over the joined document, in the order of
      markdown2html.py:113-114. */
  function InlinePasses(text: string, md5: string -> string): string {
    ParseSpecialSyntax(ParseBoldAndEmphasis(text), md5)
  }

  // ----------------------------------------------------- properties

  /** Removing `c`/`C` works character by character, so the characters kept
      stay in their order. */
  lemma {:induction false} StripCAppend(a: string, b: string)
    ensures StripC(a + b) == StripC(a) + StripC(b)
    decreases |a|
  {
    if a != [] {
      assert (a + b)[0] == a[0];
      assert (a + b)[1..] == a[1..] + b;
      StripCAppend(a[1..], b);
    } else {
      assert a + b == b;
    }
  }

  /** Every character other than `c` and `C` is kept, as often as it occurs. */
  lemma {:induction false} StripCKeepsOthers(x: string, ch: char)
    requires ch != 'c' && ch != 'C'
    ensures multiset(StripC(x))[ch] == multiset(x)[ch]
    decreases |x|
  {
    if x != [] {
      StripCKeepsOthers(x[1..], ch);
      var head := if x[0] == 'c' || x[0] == 'C' then [] else [x[0]];
      assert StripC(x) == head + StripC(x[1..]);
      assert multiset(StripC(x)) == multiset(head) + multiset(StripC(x[1..]));
      assert x == [x[0]] + x[1..];
      assert multiset(x) == multiset([x[0]]) + multiset(x[1..]);
    }
  }

  predicate IsHexDigest(h: string) {
    |h| == 32 && forall i :: 0 <= i < |h| ==> h[i] in "0123456789abcdef"
  }

  /** A group followed by `close` that holds no character of `close`'s first
      kind is the shortest one. */
  lemma {:induction false} ShortestGroup(x: string, close: string)
    requires close != []
    requires forall i :: 0 <= i < |x| ==> x[i] != close[0]
    ensures forall m :: 1 <= m < |x| ==> !OccursAt(x + close, m, close)
  {
    forall m | 1 <= m < |x| ensures !OccursAt(x + close, m, close) {
      assert (x + close)[m + 0] == x[m];
    }
  }

  /** `**X**` becomes `<b>X</b>` when `X` is one line free of `*` and `_`. */
  lemma {:induction false} BoldBecomesTag(x: string)
    requires x != [] && NoNewline(x)
    requires forall i :: 0 <= i < |x| ==> x[i] != '*' && x[i] != '_'
    ensures ParseBoldAndEmphasis("**" + x + "**") == "<b>" + x + "</b>"
  {
    ShortestGroup(x, "**");
    SubstMatchAtFront("**", x, "**", [], Bold);
    assert "**" + x + "**" + [] == "**" + x + "**";
    SubstWithoutOpen([], "**", "**", Bold);
    var b := "<b>" + x + "</b>";
    assert Subst("**" + x + "**", "**", "**", Bold) == b;
    forall i | 0 <= i < |b| ensures b[i] != '_' {
      if 3 <= i < 3 + |x| { assert b[i] == x[i - 3]; }
    }
    SubstWithoutOpen(b, "__", "__", Emphasis);
  }

  /** `__X__` becomes `<em>X</em>` when `X` is one line free of `*` and `_`. */
  lemma {:induction false} EmphasisBecomesTag(x: string)
    requires x != [] && NoNewline(x)
    requires forall i :: 0 <= i < |x| ==> x[i] != '*' && x[i] != '_'
    ensures ParseBoldAndEmphasis("__" + x + "__") == "<em>" + x + "</em>"
  {
    var u := "__" + x + "__";
    forall i | 0 <= i < |u| ensures u[i] != '*' {
      if 2 <= i < 2 + |x| { assert u[i] == x[i - 2]; }
    }
    SubstWithoutOpen(u, "**", "**", Bold);
    ShortestGroup(x, "__");
    SubstMatchAtFront("__", x, "__", [], Emphasis);
    assert u + [] == u;
    SubstWithoutOpen([], "__", "__", Emphasis);
  }

  /** Text without `*` and `_` passes the first two passes unchanged. */
  lemma BoldAndEmphasisWithoutDelimiters(text: string)
    requires forall i :: 0 <= i < |text| ==> text[i] != '*' && text[i] != '_'
    ensures ParseBoldAndEmphasis(text) == text
  {
    SubstWithoutOpen(text, "**", "**", Bold);
    SubstWithoutOpen(text, "__", "__", Emphasis);
  }

  /** Text without `[` and `(` passes the last two passes unchanged. */
  lemma SpecialSyntaxWithoutDelimiters(text: string, md5: string -> string)
    requires forall i :: 0 <= i < |text| ==> text[i] != '[' && text[i] != '('
    ensures ParseSpecialSyntax(text, md5) == text
  {
    SubstWithoutOpen(text, "[[", "]]", Digest(md5));
    SubstWithoutOpen(text, "((", "))", WithoutC);
  }

  /** The `[[..]]` pass turns `[[X]]` into the digest of `X`, keeps the text
      in front of it when that holds no `[`, and rewrites what follows on its own. */
  lemma {:induction false} DigestPass(p: string, x: string, rest: string, md5: string -> string)
    requires forall i :: 0 <= i < |p| ==> p[i] != '['
    requires x != [] && NoNewline(x)
    requires forall i :: 0 <= i < |x| ==> x[i] != ']'
    ensures Subst(p + "[[" + x + "]]" + rest, "[[", "]]", Digest(md5))
         == p + md5(x) + Subst(rest, "[[", "]]", Digest(md5))
  {
    ShortestGroup(x, "]]");
    SubstMatchAtFront("[[", x, "]]", rest, Digest(md5));
    AppendAssoc(p + "[[" + x, "]]", rest);
    AppendAssoc(p + "[[", x, "]]" + rest);
    AppendAssoc(p, "[[", x + ("]]" + rest));
    AppendAssoc("[[", x, "]]" + rest);
    AppendAssoc("[[" + x, "]]", rest);
    SubstCopiesPrefix(p, "[[" + x + "]]" + rest, "[[", "]]", Digest(md5));
  }

  /** The passes run in order: a digest produced by the `[[..]]` pass inside
      `((..))` loses its `c` characters to the pass that follows. */
  lemma {:induction false} DigestInsideParensLosesC(x: string, md5: string -> string)
    requires x != [] && NoNewline(x)
    requires forall i :: 0 <= i < |x| ==> x[i] != ']'
    requires IsHexDigest(md5(x))
    ensures ParseSpecialSyntax("(([[" + x + "]]))", md5) == StripC(md5(x))
  {
    var h := md5(x);
    assert Subst("(([[" + x + "]]))", "[[", "]]", Digest(md5)) == "((" + h + "))" by {
      DigestPass("((", x, "))", md5);
      SubstWithoutOpen("))", "[[", "]]", Digest(md5));
      assert "(([[" + x + "]]))" == "((" + "[[" + x + "]]" + "))";
    }
    forall i | 0 <= i < |h| ensures h[i] != '\n' && h[i] != ')' {
      assert h[i] in "0123456789abcdef";
    }
    ShortestGroup(h, "))");
    SubstMatchAtFront("((", h, "))", [], WithoutC);
    assert "((" + h + "))" + [] == "((" + h + "))";
    SubstWithoutOpen([], "((", "))", WithoutC);
  }

  /** Because no pattern crosses a newline, the four passes rewrite the lines
      of the joined document independently of each other. */
  lemma {:induction false} InlinePassesSplitAtNewline(a: string, b: string, md5: string -> string)
    ensures InlinePasses(a + "\n" + b, md5) == InlinePasses(a, md5) + "\n" + InlinePasses(b, md5)
  {
    SubstSplitsAtNewline(a, b, "**", "**", Bold);
    var a1, b1 := Subst(a, "**", "**", Bold), Subst(b, "**", "**", Bold);
    SubstSplitsAtNewline(a1, b1, "__", "__", Emphasis);
    var a2, b2 := Subst(a1, "__", "__", Emphasis), Subst(b1, "__", "__", Emphasis);
    SubstSplitsAtNewline(a2, b2, "[[", "]]", Digest(md5));
    var a3, b3 := Subst(a2, "[[", "]]", Digest(md5)), Subst(b2, "[[", "]]", Digest(md5));
    SubstSplitsAtNewline(a3, b3, "((", "))", WithoutC);
  }

}
