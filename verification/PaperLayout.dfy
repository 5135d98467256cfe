/** What wrapping promises: no text is lost, no line is too wide, no short word is
    cut, and no other layout of the same pieces takes fewer lines. */
module PaperLayout {
  import opened PaperWrap

  // --------------------------------------------------------- conservation

  /** The characters of a text other than spaces and line breaks. */
  function Ink(s: string): string
    decreases s
  {
    if s == "" then ""
    else if s[0] == ' ' || s[0] == '\n' then Ink(s[1..])
    else [s[0]] + Ink(s[1..])
  }

  function InkOf(lines: seq<string>): string
    decreases lines
  {
    if lines == [] then "" else Ink(lines[0]) + InkOf(lines[1..])
  }

  lemma {:induction false} InkConcat(a: string, b: string)
    ensures Ink(a + b) == Ink(a) + Ink(b)
    decreases a
  {
    if a == "" {
      assert a + b == b;
    } else {
      assert (a + b)[1..] == a[1..] + b;
      InkConcat(a[1..], b);
    }
  }

  lemma {:induction false} InkOfConcat(a: seq<string>, b: seq<string>)
    ensures InkOf(a + b) == InkOf(a) + InkOf(b)
    decreases a
  {
    if a == [] {
      assert a + b == b;
    } else {
      assert (a + b)[1..] == a[1..] + b;
      InkOfConcat(a[1..], b);
    }
  }

  lemma {:induction false} ChunksConserve(w: string, cols: nat)
    requires cols >= 1
    ensures InkOf(Chunks(w, cols)) == Ink(w)
    decreases |w|
  {
    hide Ink, InkOf;
    EmptyInk();
    InkOfNone();
    if w == "" {
    } else if |w| <= cols {
      InkOfOne(w);
    } else {
      ChunksConserve(w[cols..], cols);
      InkOfOne(w[..cols]);
      InkOfConcat([w[..cols]], Chunks(w[cols..], cols));
      InkConcat(w[..cols], w[cols..]);
      assert w[..cols] + w[cols..] == w;
    }
  }

  lemma InkOfOne(s: string)
    ensures InkOf([s]) == Ink(s)
  {
    assert [s][1..] == [];
  }

  lemma BrokenConserves(cs: seq<string>, cols: nat)
    ensures InkOf(Broken(cs, cols).full) + Ink(Broken(cs, cols).line) == InkOf(cs)
  {
    if cs != [] {
      var k := |cs| - 1;
      InkOfConcat(cs[..k], [cs[k]]);
      InkOfOne(cs[k]);
      assert cs[..k] + [cs[k]] == cs;
    }
  }

  lemma BreakConserves(w: string, line: string, cols: nat)
    requires cols >= 1
    ensures var b := Broken(Chunks(w, cols), cols); InkOf(Flush(line) + b.full) + Ink(b.line) == Ink(line) + Ink(w)
  {
    hide Chunks, Broken, Ink, InkOf, Flush;
    var b := Broken(Chunks(w, cols), cols);
    ChunksConserve(w, cols);
    BrokenConserves(Chunks(w, cols), cols);
    InkOfConcat(Flush(line), b.full);
    FlushConserves(line);
    TextAssoc(Ink(line), InkOf(b.full), Ink(b.line));
  }

  lemma TextAssoc(a: string, b: string, c: string)
    ensures a + b + c == a + (b + c)
  {
  }

  lemma FlushConserves(line: string)
    ensures InkOf(Flush(line)) == Ink(line)
  {
    InkOfOne(line);
    InkOfNone();
    EmptyInk();
    hide Ink, InkOf;
  }

  lemma SpacedConserves(line: string, w: string)
    ensures Ink(line + " " + w) == Ink(line) + Ink(w)
  {
    EmptyInk();
    InkConcat(line + " ", w);
    InkConcat(line, " ");
    hide Ink;
  }

  lemma PlaceConserves(w: string, line: string, cols: nat)
    requires cols >= 1
    ensures var p := PlaceOne(w, line, cols); InkOf(p.full) + Ink(p.line) == Ink(line) + Ink(w)
  {
    BreakConserves(w, line, cols);
    SpacedConserves(line, w);
    EmptyInk();
    InkOfNone();
    InkOfOne(line);
    hide Chunks, Broken, Ink, InkOf, Flush;
  }

  lemma EmptyInk()
    ensures Ink("") == "" && Ink(" ") == ""
  {
    assert " "[1..] == "";
  }

  lemma InkOfNone()
    ensures InkOf([]) == ""
  {
  }

  lemma {:induction false} FillConserves(ws: seq<string>, line: string, cols: nat)
    requires cols >= 1
    ensures InkOf(Fill(ws, line, cols)) == Ink(line) + InkOf(ws)
    decreases ws
  {
    hide PlaceOne, Ink;
    if ws == [] {
      InkOfOne(line);
      EmptyInk();
    } else {
      var p := PlaceOne(ws[0], line, cols);
      PlaceConserves(ws[0], line, cols);
      FillConserves(ws[1..], p.line, cols);
      InkOfConcat(p.full, Fill(ws[1..], p.line, cols));
      assert InkOf(p.full) + (Ink(p.line) + InkOf(ws[1..])) == InkOf(p.full) + Ink(p.line) + InkOf(ws[1..]);
    }
  }

  lemma {:induction false} SkippedSpaces(s: string)
    ensures Ink(SkipSpaces(s)) == Ink(s)
    decreases s
  {
    if s != "" && s[0] == ' ' {
      SkippedSpaces(s[1..]);
    }
  }

  lemma {:induction false} WordsConserve(s: string)
    ensures InkOf(Words(s)) == Ink(s)
    decreases |s|
  {
    var i := WordEnd(s);
    if i == |s| {
      InkOfOne(s);
    } else {
      var rest := SkipSpaces(s[i..]);
      WordsConserve(rest);
      SkippedSpaces(s[i..]);
      InkConcat(s[..i], s[i..]);
      assert s[..i] + s[i..] == s;
      assert ([s[..i]] + Words(rest))[1..] == Words(rest);
    }
  }

  lemma {:induction false} SplitConserves(s: string)
    ensures InkOf(Split(s, '\n')) == Ink(s)
    decreases s
  {
    if s == "" {
      InkOfOne("");
    } else {
      SplitConserves(s[1..]);
      var rest := Split(s[1..], '\n');
      if s[0] == '\n' {
        assert ([""] + rest)[1..] == rest;
      } else {
        assert [[s[0]] + rest[0]] + rest[1..] == Split(s, '\n');
        InkConcat([s[0]], rest[0]);
        assert [s[0]] + s[1..] == s;
        InkConcat([s[0]], s[1..]);
      }
    }
  }

  lemma {:induction false} LinesConserve(paragraphs: seq<string>, cols: nat)
    requires cols >= 1
    ensures InkOf(LinesOf(paragraphs, cols)) == InkOf(paragraphs)
    decreases |paragraphs|
  {
    hide InkOf, Ink, ParagraphLines;
    InkOfNone();
    if paragraphs != [] {
      var k := |paragraphs| - 1;
      var p := paragraphs[k];
      LinesConserve(paragraphs[..k], cols);
      ParagraphConserves(p, cols);
      InkOfOne(p);
      InkOfConcat(LinesOf(paragraphs[..k], cols), ParagraphLines(p, cols));
      InkOfConcat(paragraphs[..k], [p]);
      assert paragraphs[..k] + [p] == paragraphs;
    }
  }

  lemma ParagraphConserves(p: string, cols: nat)
    requires cols >= 1
    ensures InkOf(ParagraphLines(p, cols)) == Ink(p)
  {
    hide Words, Fill, Ink, InkOf;
    EmptyInk();
    if p == "" {
      InkOfOne("");
    } else {
      FillConserves(Words(p), "", cols);
      WordsConserve(p);
    }
  }

  /** Wrapping keeps every character other than spaces and breaks, in order. */
  lemma WrapConserves(text: string, cols: nat)
    requires cols >= 1
    ensures InkOf(AllLines(text, cols)) == Ink(text)
  {
    SplitConserves(text);
    LinesConserve(Split(text, '\n'), cols);
  }

  // ---------------------------------------------------------------- width

  lemma {:induction false} FillWidth(ws: seq<string>, line: string, cols: nat)
    requires cols >= 1 && |line| <= cols
    ensures forall l | l in Fill(ws, line, cols) :: |l| <= cols
    decreases ws
  {
    if ws != [] {
      FillWidth(ws[1..], PlaceOne(ws[0], line, cols).line, cols);
    }
  }

  lemma {:induction false} LinesWidth(paragraphs: seq<string>, cols: nat)
    requires cols >= 1
    ensures forall l | l in LinesOf(paragraphs, cols) :: |l| <= cols
    decreases |paragraphs|
  {
    if paragraphs != [] {
      var k := |paragraphs| - 1;
      LinesWidth(paragraphs[..k], cols);
      if paragraphs[k] != "" {
        FillWidth(Words(paragraphs[k]), "", cols);
      }
      hide Fill, Words;
    }
  }

  /** At most `rows` lines are kept, and none is too wide unless a cut is marked on
      a page narrower than its mark. */
  lemma KeptFits(text: string, cols: nat, rows: nat)
    requires cols >= 1
    ensures var all, kept := AllLines(text, cols), Kept(AllLines(text, cols), cols, rows);
            && |kept| == (if |all| <= rows then |all| else rows)
            && ((forall l | l in kept :: |l| <= cols) <==> !(|all| > rows && rows >= 1 && cols < 4))
            && (forall i | 0 <= i < |kept| ::
                  kept[i] == all[i] || (i == rows - 1 && |all| > rows && kept[i] == Mark(all[i], cols)))
  {
    LinesWidth(Split(text, '\n'), cols);
    KeptWidth(AllLines(text, cols), cols, rows);
    hide AllLines, Mark;
  }

  lemma KeptWidth(all: seq<string>, cols: nat, rows: nat)
    requires forall l | l in all :: |l| <= cols
    ensures (forall l | l in Kept(all, cols, rows) :: |l| <= cols) <==> !(|all| > rows && rows >= 1 && cols < 4)
  {
    if |all| > rows && rows >= 1 {
      var marked := Mark(all[rows - 1], cols);
      assert all[rows - 1] in all;
      MarkWidth(all[rows - 1], cols);
      hide Mark;
      assert Kept(all, cols, rows)[rows - 1] == marked;
      assert forall l | l in Kept(all, cols, rows) :: l in all || l == marked;
    }
  }

  lemma MarkWidth(last: string, cols: nat)
    requires |last| <= cols
    ensures |Mark(last, cols)| <= cols <==> cols >= 4
  {
  }

  lemma {:induction false} TrimmedAt(s: string)
    ensures var n := |TrimEnd(s)|;
            n <= |s| && TrimEnd(s) == s[..n] && (n > 0 ==> !White(s[n - 1])) && forall k | n <= k < |s| :: White(s[k])
    decreases |s|
  {
    if s != "" && White(s[|s| - 1]) {
      TrimmedAt(s[..|s| - 1]);
    }
  }

  /** How much of a line there is room for before a mark; on a page narrower than the
      mark the difference is taken off the end. */
  function Room(length: nat, cols: nat): nat
  {
    if length + 4 <= cols then length
    else if cols >= 4 then cols - 4
    else if length >= 4 - cols then length - (4 - cols)
    else 0
  }

  /** The mark is a space and three dots behind as much of the last line as there is
      room for, up to its last character that is not white. */
  lemma MarkExactly(last: string, cols: nat) returns (n: nat)
    ensures n <= Room(|last|, cols) <= |last| && Mark(last, cols) == last[..n] + " ..."
    ensures n > 0 ==> !White(last[n - 1])
    ensures forall k | n <= k < Room(|last|, cols) :: White(last[k])
  {
    var cut := if |last| + 4 <= cols then last else SliceTo(last, cols - 4);
    TrimmedAt(cut);
    n := |TrimEnd(cut)|;
    hide TrimEnd, White;
    assert cut == last[..Room(|last|, cols)];
  }

  /** The characters that are trimmed, by their code points. */
  lemma WhiteExactly(c: char)
    ensures White(c) <==>
              var n := c as int;
              9 <= n <= 13 || 0x2000 <= n <= 0x200A
              || n in {0x20, 0xA0, 0x1680, 0x2028, 0x2029, 0x202F, 0x205F, 0x3000, 0xFEFF}
  {
  }

  // -------------------------------------------------------------- layouts

  /** The non-empty words, over-long ones cut into full-width pieces. */
  function Pieces(ws: seq<string>, cols: nat): seq<string>
    requires cols >= 1
    decreases ws
  {
    if ws == [] then [] else Chunks(ws[0], cols) + Pieces(ws[1..], cols)
  }

  function Extend(line: string, group: seq<string>): string
    decreases group
  {
    if group == [] then line else Extend(line + " " + group[0], group[1..])
  }

  /** The words of a line with single spaces between them. */
  function Join(group: seq<string>): string
  {
    if group == [] then "" else Extend(group[0], group[1..])
  }

  function Joins(groups: seq<seq<string>>): seq<string>
  {
    seq(|groups|, i requires 0 <= i < |groups| => Join(groups[i]))
  }

  /** The width of the words with one space each. */
  function Span(group: seq<string>): nat
    decreases group
  {
    if group == [] then 0 else 1 + |group[0]| + Span(group[1..])
  }

  function Concat(groups: seq<seq<string>>): seq<string>
    decreases groups
  {
    if groups == [] then [] else groups[0] + Concat(groups[1..])
  }

  /** A way to set words on lines without reordering or splitting any. */
  ghost predicate Layout(groups: seq<seq<string>>, words: seq<string>, cols: nat)
  {
    Concat(groups) == words && forall g | g in groups :: Span(g) <= cols + 1
  }

  lemma {:induction false} ExtendWidth(line: string, group: seq<string>)
    ensures |Extend(line, group)| == |line| + Span(group)
    decreases group
  {
    if group != [] {
      ExtendWidth(line + " " + group[0], group[1..]);
    }
  }

  /** A layout whose lines have room: what Span counts is the width of the line. */
  lemma JoinWidth(group: seq<string>)
    requires group != []
    ensures |Join(group)| + 1 == Span(group)
  {
    ExtendWidth(group[0], group[1..]);
  }

  // ------------------------------------------------- greedy is a layout

  ghost predicate ArePieces(ps: seq<string>, cols: nat)
  {
    forall p | p in ps :: 1 <= |p| <= cols
  }

  function Groups(ps: seq<string>, current: seq<string>, cols: nat): seq<seq<string>>
    decreases ps
  {
    if ps == [] then (if current == [] then [] else [current])
    else if current == [] then Groups(ps[1..], [ps[0]], cols)
    else if |Join(current)| + 1 + |ps[0]| <= cols then Groups(ps[1..], current + [ps[0]], cols)
    else [current] + Groups(ps[1..], [ps[0]], cols)
  }

  lemma {:induction false} ExtendSnoc(line: string, group: seq<string>, w: string)
    ensures Extend(line, group + [w]) == Extend(line, group) + " " + w
    decreases group
  {
    if group == [] {
      assert [w][1..] == [] && group + [w] == [w];
    } else {
      assert (group + [w])[1..] == group[1..] + [w];
      ExtendSnoc(line + " " + group[0], group[1..], w);
    }
  }

  lemma {:induction false} FillIsGroups(ps: seq<string>, current: seq<string>, cols: nat)
    requires cols >= 1 && ArePieces(ps, cols) && (current != [] ==> Join(current) != "")
    ensures Fill(ps, Join(current), cols) == Joins(Groups(ps, current, cols))
    decreases ps
  {
    if ps == [] {
      assert Joins([]) == [] && Joins([current]) == [Join(current)];
    } else {
      var w := ps[0];
      assert w in ps && ArePieces(ps[1..], cols);
      assert Join([w]) == w;
      if current == [] {
        FillIsGroups(ps[1..], [w], cols);
      } else {
        ExtendSnoc(current[0], current[1..], w);
        assert (current + [w])[1..] == current[1..] + [w];
        assert Join(current + [w]) == Join(current) + " " + w;
        FillIsGroups(ps[1..], current + [w], cols);
        FillIsGroups(ps[1..], [w], cols);
        JoinsCons(current, Groups(ps[1..], [w], cols));
      }
      hide Join, Chunks, Broken, Joins;
    }
  }

  lemma JoinsCons(g: seq<string>, groups: seq<seq<string>>)
    ensures Joins([g] + groups) == [Join(g)] + Joins(groups)
  {
  }

  lemma {:induction false} GroupsLayout(ps: seq<string>, current: seq<string>, cols: nat)
    requires ArePieces(ps, cols) && Span(current) <= cols + 1
    ensures Layout(Groups(ps, current, cols), current + ps, cols)
    decreases ps
  {
    if ps == [] {
      OneLineLayout(current, cols);
      assert current + ps == current;
    } else {
      var w, rest := ps[0], ps[1..];
      assert w in ps && ArePieces(rest, cols);
      assert [w][1..] == [];
      if current == [] {
        GroupsLayout(rest, [w], cols);
        assert current + ps == [w] + rest;
      } else if |Join(current)| + 1 + |w| <= cols {
        JoinWidth(current);
        SpanSnoc(current, w);
        GroupsLayout(rest, current + [w], cols);
        assert current + ps == current + [w] + rest;
      } else {
        GroupsLayout(rest, [w], cols);
        LayoutCons(current, Groups(rest, [w], cols), [w] + rest, cols);
        assert [w] + rest == ps;
      }
      hide Join, Layout;
    }
  }

  lemma OneLineLayout(line: seq<string>, cols: nat)
    requires Span(line) <= cols + 1
    ensures Layout(if line == [] then [] else [line], line, cols)
  {
    if line != [] {
      var one := [line];
      assert one[1..] == [] && Concat(one) == line + Concat([]);
    }
  }

  lemma LayoutCons(line: seq<string>, groups: seq<seq<string>>, words: seq<string>, cols: nat)
    requires Layout(groups, words, cols) && Span(line) <= cols + 1
    ensures Layout([line] + groups, line + words, cols)
  {
    assert ([line] + groups)[1..] == groups;
  }

  lemma {:induction false} SpanSnoc(group: seq<string>, w: string)
    ensures Span(group + [w]) == Span(group) + 1 + |w|
    decreases group
  {
    if group == [] {
      assert group + [w] == [w] && [w][1..] == [];
    } else {
      assert (group + [w])[1..] == group[1..] + [w];
      SpanSnoc(group[1..], w);
    }
  }

  // -------------------------------------------------- and takes the fewest lines

  /** A layout of the remaining words whose first line goes on after a started one. */
  ghost predicate Continues(groups: seq<seq<string>>, words: seq<string>, line: string, cols: nat)
  {
    && groups != [] && Layout(groups[1..], Concat(groups[1..]), cols) && Concat(groups) == words
    && |line| + Span(groups[0]) <= cols
  }

  /** However the words are laid out, the greedy line never falls behind. */
  lemma {:induction false} GreedyStaysAhead(ps: seq<string>, line: string, groups: seq<seq<string>>, cols: nat)
    requires cols >= 1 && ArePieces(ps, cols) && line != "" && Continues(groups, ps, line, cols)
    ensures |Fill(ps, line, cols)| <= |groups|
    decreases ps
  {
    if ps != [] {
      var w, rest := ps[0], ps[1..];
      assert w in ps && ArePieces(rest, cols) && ps == [w] + rest;
      if groups[0] != [] {
        var later := SameLine(w, rest, line, groups, cols);
        GreedyStaysAhead(rest, line + " " + w, later, cols);
      } else {
        var later := NextLine(w, rest, line, groups, cols);
        GreedyStaysAhead(rest, if |line| + 1 + |w| <= cols then line + " " + w else w, later, cols);
      }
      hide Chunks, Broken, Continues;
    }
  }

  /** A layout that also puts the next word on this line. */
  lemma SameLine(w: string, rest: seq<string>, line: string, groups: seq<seq<string>>, cols: nat)
    returns (later: seq<seq<string>>)
    requires Continues(groups, [w] + rest, line, cols) && groups[0] != []
    ensures |line| + 1 + |w| <= cols && |later| == |groups|
    ensures Continues(later, rest, line + " " + w, cols)
  {
    var g := groups[0];
    var all := g + Concat(groups[1..]);
    assert g[0] == all[0] == w;
    later := [g[1..]] + groups[1..];
    assert later[1..] == groups[1..];
    assert g[1..] + Concat(groups[1..]) == all[1..] == ([w] + rest)[1..] == rest;
  }

  /** A layout that ends this line is no worse for the greedy line, which may take
      the next word or not. */
  lemma NextLine(w: string, rest: seq<string>, line: string, groups: seq<seq<string>>, cols: nat)
    returns (later: seq<seq<string>>)
    requires Continues(groups, [w] + rest, line, cols) && groups[0] == []
    ensures if |line| + 1 + |w| <= cols then |later| <= |groups| && Continues(later, rest, line + " " + w, cols)
            else |later| < |groups| && Continues(later, rest, w, cols)
  {
    assert Concat(groups[1..]) == [w] + rest;
    var tail := FirstOff(groups[1..], w, rest, cols);
    assert forall g | g in tail[1..] :: g in tail;
    if |line| + 1 + |w| <= cols {
      later := [[]] + tail;
      assert later[1..] == tail;
    } else {
      later := tail;
    }
  }

  /** The first word taken off a layout, and the empty lines before it dropped. */
  lemma {:induction false} FirstOff(groups: seq<seq<string>>, w: string, rest: seq<string>, cols: nat)
    returns (later: seq<seq<string>>)
    requires Layout(groups, [w] + rest, cols)
    ensures later != [] && |later| <= |groups| && Concat(later) == rest
    ensures |w| + Span(later[0]) <= cols && forall g | g in later :: Span(g) <= cols + 1
    decreases groups
  {
    var g := groups[0];
    assert g in groups;
    assert forall h | h in groups[1..] :: h in groups;
    if g == [] {
      assert Concat(groups[1..]) == [w] + rest;
      later := FirstOff(groups[1..], w, rest, cols);
    } else {
      assert g[0] == w by {
        assert (g + Concat(groups[1..]))[0] == g[0];
      }
      later := [g[1..]] + groups[1..];
      assert later[1..] == groups[1..];
      assert g[1..] + Concat(groups[1..]) == (g + Concat(groups[1..]))[1..] == ([w] + rest)[1..] == rest;
    }
  }

  lemma FillFewest(ps: seq<string>, groups: seq<seq<string>>, cols: nat)
    requires cols >= 1 && ArePieces(ps, cols) && Layout(groups, ps, cols)
    ensures |Fill(ps, "", cols)| <= |groups|
  {
    if ps != [] {
      var w, rest := ps[0], ps[1..];
      assert w in ps && ArePieces(rest, cols) && ps == [w] + rest;
      var later := FirstOff(groups, w, rest, cols);
      assert forall g | g in later[1..] :: g in later;
      GreedyStaysAhead(rest, w, later, cols);
    }
  }

  // --------------------------------------------- over-long words and spaces

  lemma FullPlace(w: string, line: string, cols: nat)
    requires cols >= 1 && |line| == cols
    ensures var p, q := PlaceOne(w, line, cols), PlaceOne(w, "", cols);
            p.full == [line] + q.full && p.line == q.line
  {
    hide Chunks, Broken;
  }

  lemma FillCons(w: string, ws: seq<string>, line: string, cols: nat)
    requires cols >= 1
    ensures var p := PlaceOne(w, line, cols);
            Fill([w] + ws, line, cols) == p.full + Fill(ws, p.line, cols)
  {
    hide PlaceOne;
    assert ([w] + ws)[1..] == ws;
  }

  /** A full line is finished whatever comes next. */
  lemma FullLine(ws: seq<string>, line: string, cols: nat)
    requires cols >= 1 && |line| == cols
    ensures Fill(ws, line, cols) == [line] + Fill(ws, "", cols)
  {
    if ws != [] {
      var w, rest := ws[0], ws[1..];
      assert ws == [w] + rest;
      FillCons(w, rest, line, cols);
      FillCons(w, rest, "", cols);
      FullPlace(w, line, cols);
      hide PlaceOne, Fill;
      Assoc([line], PlaceOne(w, "", cols).full, Fill(rest, PlaceOne(w, "", cols).line, cols));
    }
  }

  lemma Assoc(a: seq<string>, b: seq<string>, c: seq<string>)
    ensures a + b + c == a + (b + c)
  {
  }

  function After(line: string, lines: seq<string>): seq<string>
  {
    if line == "" then lines else [line] + lines
  }

  /** Cutting an over-long word in the loop is the same as cutting it beforehand. */
  lemma {:induction false} FillChunks(w: string, ps: seq<string>, line: string, cols: nat)
    requires cols >= 1 && w != "" && (line == "" || |w| > cols)
    ensures var b := Broken(Chunks(w, cols), cols);
            Fill(Chunks(w, cols) + ps, line, cols) == After(line, b.full + Fill(ps, b.line, cols))
    decreases |w|
  {
    if |w| <= cols {
      LastChunk(w, ps, cols);
    } else {
      var c, rest := w[..cols], Chunks(w[cols..], cols);
      var b := Broken(rest, cols);
      FillChunks(w[cols..], ps, "", cols);
      BrokenCons(c, rest, cols);
      assert Chunks(w, cols) == [c] + rest;
      FirstChunk(c, rest + ps, line, cols);
      hide Chunks, Broken, Fill, PlaceOne;
      Assoc([c], rest, ps);
      Assoc([c], b.full, Fill(ps, b.line, cols));
      hide After;
    }
  }

  lemma LastChunk(w: string, ps: seq<string>, cols: nat)
    requires cols >= 1 && 1 <= |w| <= cols
    ensures Chunks(w, cols) == [w]
    ensures Fill([w] + ps, "", cols) == Broken([w], cols).full + Fill(ps, Broken([w], cols).line, cols)
  {
    FillCons(w, ps, "", cols);
    if |w| == cols {
      FullLine(ps, w, cols);
    }
    hide Fill;
  }

  lemma FirstChunk(c: string, ws: seq<string>, line: string, cols: nat)
    requires cols >= 1 && |c| == cols
    ensures Fill([c] + ws, line, cols) == After(line, [c] + Fill(ws, "", cols))
  {
    FillCons(c, ws, line, cols);
    FullLine(ws, c, cols);
    hide Fill;
  }

  lemma BrokenCons(c: string, cs: seq<string>, cols: nat)
    requires cs != []
    ensures Broken([c] + cs, cols) == Placed([c] + Broken(cs, cols).full, Broken(cs, cols).line)
  {
    assert ([c] + cs)[..|cs|] == [c] + cs[..|cs| - 1];
  }

  /** Equal but for a space left at the end of a line. */
  ghost predicate Like(lines: seq<string>, clean: seq<string>)
  {
    |lines| == |clean| && forall i | 0 <= i < |lines| :: lines[i] == clean[i] || lines[i] == clean[i] + " "
  }

  lemma LikeAfter(a: seq<string>, lines: seq<string>, clean: seq<string>)
    requires Like(lines, clean)
    ensures Like(a + lines, a + clean)
  {
  }

  lemma {:induction false} PiecesArePieces(ws: seq<string>, cols: nat)
    requires cols >= 1
    ensures ArePieces(Pieces(ws, cols), cols)
    decreases ws
  {
    if ws != [] {
      PiecesArePieces(ws[1..], cols);
    }
  }

  lemma TrailingBlank(line: string, cols: nat)
    requires cols >= 1
    ensures Like(Fill([""], line, cols), Fill([], line, cols))
  {
    FillCons("", [], line, cols);
    assert [""] + [] == [""];
  }

  /** The loop over words does what it would do over their pieces; an empty last
      word leaves at most a space. */
  lemma {:induction false} FillPieces(ws: seq<string>, line: string, cols: nat)
    requires cols >= 1 && |line| <= cols && forall i | 0 <= i < |ws| - 1 :: ws[i] != ""
    ensures Like(Fill(ws, line, cols), Fill(Pieces(ws, cols), line, cols))
    decreases ws
  {
    if ws == [] {
    } else if ws == [""] {
      TrailingBlank(line, cols);
      assert Pieces([""], cols) == [];
    } else {
      var w, rest := ws[0], ws[1..];
      var p := PlaceOne(w, line, cols);
      assert ws == [w] + rest && w != "";
      FillPieces(rest, p.line, cols);
      FillCons(w, rest, line, cols);
      PiecesOfOne(w, Pieces(rest, cols), line, cols);
      hide PlaceOne, Fill, Chunks, Like;
      LikeAfter(p.full, Fill(rest, p.line, cols), Fill(Pieces(rest, cols), p.line, cols));
    }
  }

  lemma PiecesOfOne(w: string, ps: seq<string>, line: string, cols: nat)
    requires cols >= 1 && w != ""
    ensures var p := PlaceOne(w, line, cols);
            Fill(Chunks(w, cols) + ps, line, cols) == p.full + Fill(ps, p.line, cols)
  {
    if |w| <= cols {
      FillCons(w, ps, line, cols);
    } else {
      var b := Broken(Chunks(w, cols), cols);
      FillChunks(w, ps, line, cols);
      hide Chunks, Broken, Fill;
      Assoc(Flush(line), b.full, Fill(ps, b.line, cols));
    }
  }

  /** Only the first and the last word may be empty. */
  predicate InnerWords(ws: seq<string>)
  {
    forall i | 0 < i < |ws| - 1 :: ws[i] != ""
  }

  lemma {:induction false} WordsShape(s: string)
    ensures InnerWords(Words(s)) && (s != "" && s[0] != ' ' ==> Words(s)[0] != "")
    decreases |s|
  {
    var i := WordEnd(s);
    if i < |s| {
      var rest := SkipSpaces(s[i..]);
      WordsShape(rest);
      var ws := Words(s);
      assert ws == [s[..i]] + Words(rest);
      forall j | 0 < j < |ws| - 1 ensures ws[j] != "" {
        assert ws[j] == Words(rest)[j - 1];
      }
    }
  }

  /** The pieces of the words of a paragraph. */
  function ParagraphPieces(p: string, cols: nat): seq<string>
    requires cols >= 1
  {
    Pieces(Words(p), cols)
  }

  lemma ParagraphIsPieces(p: string, cols: nat)
    requires cols >= 1 && p != ""
    ensures Like(ParagraphLines(p, cols), Fill(ParagraphPieces(p, cols), "", cols))
  {
    var ws := Words(p);
    WordsShape(p);
    if ws[0] == "" {
      var rest := ws[1..];
      assert ws == [""] + rest;
      FillCons("", rest, "", cols);
      assert Pieces(ws, cols) == Pieces(rest, cols);
      forall i | 0 <= i < |rest| - 1 ensures rest[i] != "" {
        assert ws[i + 1] != "";
      }
      FillPieces(rest, "", cols);
    } else {
      FillPieces(ws, "", cols);
    }
  }

  /** The ways to lay out a paragraph; an empty one takes an empty line. */
  ghost predicate ParagraphLayout(p: string, groups: seq<seq<string>>, cols: nat)
    requires cols >= 1
  {
    if p == "" then groups == [[]] else Layout(groups, ParagraphPieces(p, cols), cols)
  }

  /** Every layout of a paragraph takes at least as many lines as the loop makes,
      and the loop's lines are such a layout. */
  lemma ParagraphFewest(p: string, groups: seq<seq<string>>, cols: nat)
    requires cols >= 1 && ParagraphLayout(p, groups, cols)
    ensures |ParagraphLines(p, cols)| <= |groups|
  {
    if p != "" {
      ParagraphIsPieces(p, cols);
      PiecesArePieces(Words(p), cols);
      FillFewest(ParagraphPieces(p, cols), groups, cols);
    }
  }

  lemma ParagraphGreedy(p: string, cols: nat) returns (groups: seq<seq<string>>)
    requires cols >= 1
    ensures ParagraphLayout(p, groups, cols) && Like(ParagraphLines(p, cols), Joins(groups))
  {
    if p == "" {
      groups := [[]];
    } else {
      var ps := ParagraphPieces(p, cols);
      groups := Groups(ps, [], cols);
      ParagraphIsPieces(p, cols);
      PiecesArePieces(Words(p), cols);
      GroupsLayout(ps, [], cols);
      FillIsGroups(ps, [], cols);
      assert [] + ps == ps;
    }
  }

  // --------------------------------------------------- reading the words back

  function NonEmpty(ws: seq<string>): seq<string>
    decreases ws
  {
    if ws == [] then [] else (if ws[0] == "" then [] else [ws[0]]) + NonEmpty(ws[1..])
  }

  /** The words that a reader finds on the lines, line by line. */
  function WordsOn(lines: seq<string>): seq<string>
    decreases lines
  {
    if lines == [] then [] else NonEmpty(Words(lines[0])) + WordsOn(lines[1..])
  }

  /** The words that fit a line. */
  function Short(ws: seq<string>, cols: nat): seq<string>
    decreases ws
  {
    if ws == [] then [] else (if 1 <= |ws[0]| <= cols then [ws[0]] else []) + Short(ws[1..], cols)
  }

  /** a can be had from b by leaving elements out. */
  ghost predicate Subsequence(a: seq<string>, b: seq<string>)
    decreases b
  {
    a == [] || (b != [] && ((a[0] == b[0] && Subsequence(a[1..], b[1..])) || Subsequence(a, b[1..])))
  }

  ghost predicate Spaceless(ws: seq<string>)
  {
    forall w | w in ws :: w != "" && ' ' !in w
  }

  lemma {:induction false} WordEndAt(w: string, rest: string)
    requires ' ' !in w
    ensures WordEnd(w + " " + rest) == |w|
    decreases w
  {
    var s := w + " " + rest;
    if w != "" {
      assert s[1..] == w[1..] + " " + rest;
      WordEndAt(w[1..], rest);
    }
  }

  lemma {:induction false} WordEndWhole(w: string)
    requires ' ' !in w
    ensures WordEnd(w) == |w|
    decreases w
  {
    if w != "" {
      WordEndWhole(w[1..]);
    }
  }

  /** The first word of a line and what follows its space. */
  lemma WordsFirst(w: string, rest: string)
    requires ' ' !in w && (rest == "" || rest[0] != ' ')
    ensures Words(w + " " + rest) == [w] + Words(rest)
  {
    var s := w + " " + rest;
    WordEndAt(w, rest);
    assert s[|w|..] == " " + rest && (" " + rest)[1..] == rest;
    assert SkipSpaces(" " + rest) == SkipSpaces(rest) == rest;
    assert s[..|w|] == w;
  }

  lemma {:induction false} ExtendShift(line: string, w: string, group: seq<string>)
    ensures Extend(line + " " + w, group) == line + " " + Extend(w, group)
    decreases group
  {
    if group != [] {
      ExtendShift(line, w + " " + group[0], group[1..]);
      assert line + " " + w + " " + group[0] == line + " " + (w + " " + group[0]);
    }
  }

  lemma JoinCons(w: string, group: seq<string>)
    requires group != []
    ensures Join([w] + group) == w + " " + Join(group)
  {
    ExtendShift(w, group[0], group[1..]);
    assert ([w] + group)[1..] == group;
  }

  /** Splitting a joined line gives back its words, and an empty one after them if
      a space was left at its end. */
  lemma {:induction false} JoinSplits(group: seq<string>)
    requires group != [] && Spaceless(group)
    ensures Words(Join(group)) == group && Words(Join(group) + " ") == group + [""]
    ensures Join(group) != "" && Join(group)[0] != ' '
    decreases group
  {
    hide Words, WordEnd, SkipSpaces;
    var w, rest := group[0], group[1..];
    assert w in group && group == [w] + rest && forall v | v in rest :: v in group;
    if rest == [] {
      WordEndWhole(w);
      WholeWords(w);
      WholeWords("");
      WordEndWhole("");
      WordsFirst(w, "");
      assert w + " " + "" == w + " ";
    } else {
      JoinSplits(rest);
      JoinCons(w, rest);
      hide Join;
      TwoWords(w, Join(rest), rest);
    }
  }

  lemma TwoWords(w: string, tail: string, rest: seq<string>)
    requires ' ' !in w && tail != "" && tail[0] != ' '
    requires Words(tail) == rest && Words(tail + " ") == rest + [""]
    ensures Words(w + " " + tail) == [w] + rest && Words(w + " " + tail + " ") == [w] + rest + [""]
  {
    hide Words;
    WordsFirst(w, tail);
    WordsFirst(w, tail + " ");
    assert w + " " + tail + " " == w + " " + (tail + " ");
    assert [w] + (rest + [""]) == [w] + rest + [""];
  }

  lemma {:induction false} NonEmptyWhole(ws: seq<string>)
    requires forall w | w in ws :: w != ""
    ensures NonEmpty(ws) == ws && NonEmpty(ws + [""]) == ws
    decreases ws
  {
    if ws == [] {
      assert [] + [""] == [""] && [""][1..] == [];
    } else {
      assert (ws + [""])[1..] == ws[1..] + [""] && ws[0] in ws && forall w | w in ws[1..] :: w in ws;
      NonEmptyWhole(ws[1..]);
    }
  }

  lemma {:induction false} WordsOnJoins(lines: seq<string>, groups: seq<seq<string>>)
    requires Like(lines, Joins(groups)) && forall g | g in groups :: Spaceless(g)
    ensures WordsOn(lines) == Concat(groups)
    decreases groups
  {
    if groups != [] {
      var g := groups[0];
      assert g in groups && Joins(groups)[0] == Join(g);
      assert Joins(groups[1..]) == Joins(groups)[1..];
      WordsOnJoins(lines[1..], groups[1..]);
      WordsOnLine(lines[0], g);
    }
  }

  lemma WordsOnLine(line: string, group: seq<string>)
    requires Spaceless(group) && (line == Join(group) || line == Join(group) + " ")
    ensures NonEmpty(Words(line)) == group
  {
    if group == [] {
      assert Words("") == [""] && NonEmpty([""]) == [] && "" + " " == " ";
      WordsFirst("", "");
      assert "" + " " + "" == " " && Words(" ") == [""] + [""];
      NonEmptyTwo();
    } else {
      JoinSplits(group);
      NonEmptyWhole(group);
    }
  }

  lemma NonEmptyTwo()
    ensures NonEmpty([""]) == [] && NonEmpty([""] + [""]) == []
  {
    assert ([""] + [""])[1..] == [""];
    assert [""][1..] == [];
  }

  lemma {:induction false} WordsAreSpaceless(s: string)
    ensures forall w | w in Words(s) :: ' ' !in w
    decreases |s|
  {
    var i := WordEnd(s);
    if i < |s| {
      WordsAreSpaceless(SkipSpaces(s[i..]));
    } else {
      assert s[..i] == s;
    }
  }

  lemma {:induction false} ChunksSpaceless(w: string, cols: nat)
    requires cols >= 1 && ' ' !in w
    ensures Spaceless(Chunks(w, cols))
    decreases |w|
  {
    if |w| > cols {
      ChunksSpaceless(w[cols..], cols);
    }
  }

  lemma {:induction false} PiecesSpaceless(ws: seq<string>, cols: nat)
    requires cols >= 1 && forall w | w in ws :: ' ' !in w
    ensures Spaceless(Pieces(ws, cols))
    decreases ws
  {
    if ws != [] {
      assert ws[0] in ws;
      ChunksSpaceless(ws[0], cols);
      PiecesSpaceless(ws[1..], cols);
      hide Chunks;
    }
  }

  lemma {:induction false} InGroups(groups: seq<seq<string>>, g: seq<string>, w: string)
    requires g in groups && w in g
    ensures w in Concat(groups)
    decreases groups
  {
    if groups[0] != g {
      InGroups(groups[1..], g, w);
    }
  }

  lemma {:induction false} SubsequenceAppend(c: seq<string>, a: seq<string>, b: seq<string>)
    requires Subsequence(a, b)
    ensures Subsequence(a, c + b)
    decreases c
  {
    if c == [] {
      assert c + b == b;
    } else {
      assert (c + b)[1..] == c[1..] + b;
      SubsequenceAppend(c[1..], a, b);
    }
  }

  lemma {:induction false} ShortInPieces(ws: seq<string>, cols: nat)
    requires cols >= 1
    ensures Subsequence(Short(ws, cols), Pieces(ws, cols))
    decreases ws
  {
    if ws != [] {
      var w, rest := ws[0], ws[1..];
      ShortInPieces(rest, cols);
      if 1 <= |w| <= cols {
        assert Chunks(w, cols) == [w];
        assert ([w] + Short(rest, cols))[1..] == Short(rest, cols);
        assert ([w] + Pieces(rest, cols))[1..] == Pieces(rest, cols);
      } else {
        SubsequenceAppend(Chunks(w, cols), Short(rest, cols), Pieces(rest, cols));
        assert [] + Short(rest, cols) == Short(rest, cols);
      }
    }
  }

  /** Reading the lines of a paragraph word by word gives its words back in order,
      over-long ones in pieces; so every word that fits a line stands whole on one. */
  lemma WordsUncut(p: string, cols: nat)
    requires cols >= 1 && p != ""
    ensures WordsOn(ParagraphLines(p, cols)) == Pieces(Words(p), cols)
    ensures Subsequence(Short(Words(p), cols), WordsOn(ParagraphLines(p, cols)))
  {
    var ws := Words(p);
    var groups := ParagraphGreedy(p, cols);
    WordsAreSpaceless(p);
    PiecesSpaceless(ws, cols);
    hide Words, Pieces, Joins, Like, ParagraphLines, WordsOn, Short, Subsequence;
    forall g | g in groups ensures Spaceless(g) {
      forall w | w in g ensures w in Concat(groups) {
        InGroups(groups, g, w);
      }
    }
    WordsOnJoins(ParagraphLines(p, cols), groups);
    ShortInPieces(ws, cols);
  }

  // ------------------------------------------------------- cutting anywhere

  function Flat(parts: seq<string>): string
    decreases parts
  {
    if parts == [] then "" else parts[0] + Flat(parts[1..])
  }

  ghost predicate Cut(parts: seq<string>, w: string)
  {
    Flat(parts) == w && forall c | c in parts :: c != ""
  }

  /** The pieces when an over-long word may be cut anywhere, and as often as one
      likes, while the others stay whole. */
  ghost predicate FreeCut(ps: seq<string>, ws: seq<string>, cols: nat)
    decreases ws
  {
    if ws == [] then ps == []
    else if |ws[0]| <= cols then
      if ws[0] == "" then FreeCut(ps, ws[1..], cols)
      else ps != [] && ps[0] == ws[0] && FreeCut(ps[1..], ws[1..], cols)
    else
      exists n: nat | n <= |ps| :: Cut(ps[..n], ws[0]) && FreeCut(ps[n..], ws[1..], cols)
  }

  /** A layout of a paragraph with over-long words cut anywhere. */
  ghost predicate FreeLayout(p: string, groups: seq<seq<string>>, cols: nat)
  {
    FreeCut(Concat(groups), Words(p), cols) && forall g | g in groups :: Span(g) <= cols + 1
  }

  lemma {:induction false} ChunksCut(w: string, cols: nat)
    requires cols >= 1
    ensures Cut(Chunks(w, cols), w)
    decreases |w|
  {
    if w == "" {
    } else if |w| <= cols {
      assert [w][1..] == [] && w + "" == w;
    } else {
      var rest := Chunks(w[cols..], cols);
      ChunksCut(w[cols..], cols);
      CutCons(w[..cols], rest, w[cols..]);
      assert w[..cols] + w[cols..] == w;
    }
  }

  lemma CutCons(c: string, rest: seq<string>, w: string)
    requires c != "" && Cut(rest, w)
    ensures Cut([c] + rest, c + w)
  {
    assert ([c] + rest)[1..] == rest;
  }

  /** The loop's own pieces are one such cut. */
  lemma {:induction false} PiecesAreFreeCut(ws: seq<string>, cols: nat)
    requires cols >= 1
    ensures FreeCut(Pieces(ws, cols), ws, cols)
    decreases ws
  {
    if ws != [] {
      var cs, rest := Chunks(ws[0], cols), Pieces(ws[1..], cols);
      PiecesAreFreeCut(ws[1..], cols);
      ChunksCut(ws[0], cols);
      assert (cs + rest)[..|cs|] == cs && (cs + rest)[|cs|..] == rest;
    }
  }

  /** So the lines of a paragraph are a layout of this wider kind too. */
  lemma GreedyIsFree(p: string, cols: nat) returns (groups: seq<seq<string>>)
    requires cols >= 1 && p != ""
    ensures FreeLayout(p, groups, cols) && Like(ParagraphLines(p, cols), Joins(groups))
  {
    groups := ParagraphGreedy(p, cols);
    PiecesAreFreeCut(Words(p), cols);
    hide Words, Pieces, FreeCut, ParagraphLines, Joins, Like;
  }

  /** Without over-long words there is nothing to cut. */
  lemma {:induction false} NothingToCut(ps: seq<string>, ws: seq<string>, cols: nat)
    requires cols >= 1 && FreeCut(ps, ws, cols) && forall w | w in ws :: |w| <= cols
    ensures ps == Pieces(ws, cols)
    decreases ws
  {
    if ws != [] {
      assert ws[0] in ws && forall w | w in ws[1..] :: w in ws;
      if ws[0] == "" {
        NothingToCut(ps, ws[1..], cols);
        assert [] + ps == ps;
      } else {
        NothingToCut(ps[1..], ws[1..], cols);
        assert ps == [ws[0]] + ps[1..];
      }
    }
  }

  /** A paragraph without over-long words takes the fewest lines even when words may
      be cut anywhere. */
  lemma FewestOfAll(p: string, groups: seq<seq<string>>, cols: nat)
    requires cols >= 1 && p != "" && FreeLayout(p, groups, cols) && forall w | w in Words(p) :: |w| <= cols
    ensures |ParagraphLines(p, cols)| <= |groups|
  {
    NothingToCut(Concat(groups), Words(p), cols);
    hide Words, Pieces, ParagraphLines, FreeCut;
    ParagraphFewest(p, groups, cols);
  }

  /** With one, cutting elsewhere may take fewer lines: with three columns these
      take three, and "a b" and "cde" two. */
  lemma CutElsewhere()
    ensures ParagraphLines("a bcde", 3) == ["a", "bcd", "e"]
    ensures FreeLayout("a bcde", [["a", "b"], ["cde"]], 3) && Joins([["a", "b"], ["cde"]]) == ["a b", "cde"]
  {
    ExampleWords();
    ExampleChunks();
    ExampleFreeCut();
    hide Words, Chunks, FreeCut;
    var ws := ["a", "bcde"];
    assert ws[1..] == ["bcde"] && ["bcde"][1..] == [];
    assert PlaceOne("bcde", "a", 3) == Placed(["a"] + ["bcd"], "e");
    hide PlaceOne;
    assert Fill([], "e", 3) == ["e"];
  }

  lemma ExampleFreeCut()
    ensures FreeCut(["a", "b", "cde"], ["a", "bcde"], 3) && Concat([["a", "b"], ["cde"]]) == ["a", "b", "cde"]
    ensures forall g | g in [["a", "b"], ["cde"]] :: Span(g) <= 4
    ensures Joins([["a", "b"], ["cde"]]) == ["a b", "cde"]
  {
    var ps := ["b", "cde"];
    assert ["a", "b", "cde"][1..] == ps && ["a", "bcde"][1..] == ["bcde"] && ["bcde"][1..] == [];
    assert [["a", "b"], ["cde"]][1..] == [["cde"]] && [["cde"]][1..] == [];
    assert ps[..2] == ps && ps[2..] == [] && ps[1..] == ["cde"] && ["cde"][1..] == [];
    assert "b" + "cde" == "bcde" && "cde" + "" == "cde";
    assert Flat(["cde"]) == "cde" && Flat(ps) == "bcde";
    assert Cut(ps[..2], "bcde") && FreeCut(ps[2..], [], 3);
    ExampleJoins();
  }

  lemma ExampleJoins()
    ensures Joins([["a", "b"], ["cde"]]) == ["a b", "cde"] && Span(["a", "b"]) == 4 && Span(["cde"]) == 4
  {
    var g := ["a", "b"];
    assert g[1..] == ["b"] && ["b"][1..] == [] && ["cde"][1..] == [];
    assert "a" + " " + "b" == "a b";
    assert Extend("a", ["b"]) == Extend("a b", []) == "a b";
    assert Join(g) == "a b" && Join(["cde"]) == "cde";
  }

  lemma ExampleWords()
    ensures Words("a bcde") == ["a", "bcde"]
  {
    WordsFirst("a", "bcde");
    WordEndWhole("bcde");
    assert "a" + " " + "bcde" == "a bcde";
    hide Words, WordEnd;
    WholeWords("bcde");
  }

  lemma WholeWords(w: string)
    requires WordEnd(w) == |w|
    ensures Words(w) == [w]
  {
  }

  lemma ExampleChunks()
    ensures Chunks("bcde", 3) == ["bcd", "e"] && Broken(["bcd", "e"], 3) == Placed(["bcd"], "e")
    ensures PlaceOne("a", "", 3) == Placed([], "a")
  {
    assert "bcde"[..3] == "bcd" && "bcde"[3..] == "e";
    assert ["bcd", "e"][..1] == ["bcd"];
  }

  // ------------------------------------------------------------- whole letters

  /** A layout for each paragraph. */
  ghost predicate TextLayout(paragraphs: seq<string>, layouts: seq<seq<seq<string>>>, cols: nat)
    requires cols >= 1
  {
    |layouts| == |paragraphs| && forall i | 0 <= i < |layouts| :: ParagraphLayout(paragraphs[i], layouts[i], cols)
  }

  function LineCount(layouts: seq<seq<seq<string>>>): nat
    decreases |layouts|
  {
    if layouts == [] then 0 else LineCount(layouts[..|layouts| - 1]) + |layouts[|layouts| - 1]|
  }

  lemma {:induction false} TextFewest(paragraphs: seq<string>, layouts: seq<seq<seq<string>>>, cols: nat)
    requires cols >= 1 && TextLayout(paragraphs, layouts, cols)
    ensures |LinesOf(paragraphs, cols)| <= LineCount(layouts)
    decreases |paragraphs|
  {
    if paragraphs != [] {
      var k := |paragraphs| - 1;
      TextFewest(paragraphs[..k], layouts[..k], cols);
      ParagraphFewest(paragraphs[k], layouts[k], cols);
    }
  }

  lemma {:induction false} TextGreedy(paragraphs: seq<string>, cols: nat) returns (layouts: seq<seq<seq<string>>>)
    requires cols >= 1
    ensures TextLayout(paragraphs, layouts, cols) && LineCount(layouts) == |LinesOf(paragraphs, cols)|
    decreases |paragraphs|
  {
    if paragraphs == [] {
      layouts := [];
    } else {
      var k := |paragraphs| - 1;
      var before := TextGreedy(paragraphs[..k], cols);
      var last := ParagraphGreedy(paragraphs[k], cols);
      hide ParagraphLayout, ParagraphLines, TextLayout;
      TextLayoutSnoc(paragraphs, before, last, cols);
      layouts := before + [last];
    }
  }

  lemma TextLayoutSnoc(paragraphs: seq<string>, before: seq<seq<seq<string>>>, last: seq<seq<string>>, cols: nat)
    requires cols >= 1 && paragraphs != []
    requires TextLayout(paragraphs[..|paragraphs| - 1], before, cols)
    requires ParagraphLayout(paragraphs[|paragraphs| - 1], last, cols)
    ensures TextLayout(paragraphs, before + [last], cols)
    ensures LineCount(before + [last]) == LineCount(before) + |last|
  {
    hide ParagraphLayout;
    assert (before + [last])[..|before|] == before;
  }

  /** A letter is reported as cut exactly when no layout of it fits the page. */
  lemma TruncatedExactly(text: string, cols: nat, rows: nat)
    requires cols >= 1
    ensures |AllLines(text, cols)| > rows <==>
            forall layouts | TextLayout(Split(text, '\n'), layouts, cols) :: LineCount(layouts) > rows
  {
    var paragraphs := Split(text, '\n');
    var greedy := TextGreedy(paragraphs, cols);
    forall layouts | TextLayout(paragraphs, layouts, cols) ensures |AllLines(text, cols)| <= LineCount(layouts) {
      TextFewest(paragraphs, layouts, cols);
    }
    assert TextLayout(paragraphs, greedy, cols);
  }
}
