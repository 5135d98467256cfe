/** Word-wrapping a letter to the page grid of a Paper. */
module PaperWrap {

  // ------------------------------------------------- splitting into words

  /** The pieces between separators; there is always at least one. */
  function Split(s: string, separator: char): (r: seq<string>)
    ensures r != []
    decreases s
  {
    if s == "" then [""]
    else
      var rest := Split(s[1..], separator);
      if s[0] == separator then [""] + rest else [[s[0]] + rest[0]] + rest[1..]
  }

  function WordEnd(s: string): (i: nat)
    ensures i <= |s| && ' ' !in s[..i] && (i < |s| ==> s[i] == ' ')
    decreases s
  {
    if s == "" || s[0] == ' ' then 0
    else
      var i := WordEnd(s[1..]);
      assert s[..i + 1] == [s[0]] + s[1..][..i];
      i + 1
  }

  function SkipSpaces(s: string): (r: string)
    ensures |r| <= |s| && (s != "" && s[0] == ' ' ==> |r| < |s|) && (r != "" ==> r[0] != ' ')
    decreases s
  {
    if s != "" && s[0] == ' ' then SkipSpaces(s[1..]) else s
  }

  /** The words between runs of spaces. Spaces at either end leave an empty word
      there. */
  function Words(s: string): (ws: seq<string>)
    ensures ws != []
    decreases |s|
  {
    var i := WordEnd(s);
    if i == |s| then [s] else [s[..i]] + Words(SkipSpaces(s[i..]))
  }

  // --------------------------------------------------------- the lines

  /** A word cut into runs of at most `cols` characters. */
  function Chunks(w: string, cols: nat): (cs: seq<string>)
    requires cols >= 1
    ensures w != "" ==> cs != []
    ensures forall c | c in cs :: 1 <= |c| <= cols
    decreases |w|
  {
    if w == "" then [] else if |w| <= cols then [w] else [w[..cols]] + Chunks(w[cols..], cols)
  }

  function Flush(line: string): seq<string>
  {
    if line == "" then [] else [line]
  }

  /** Finished lines and the line still being filled. */
  datatype Placed = Placed(full: seq<string>, line: string)

  /** A short last chunk is taken back to start a line. */
  function Broken(cs: seq<string>, cols: nat): Placed
  {
    if cs != [] && |cs[|cs| - 1]| < cols then Placed(cs[..|cs| - 1], cs[|cs| - 1]) else Placed(cs, "")
  }

  function PlaceOne(w: string, line: string, cols: nat): Placed
    requires cols >= 1
  {
    if |w| > cols then
      var b := Broken(Chunks(w, cols), cols);
      Placed(Flush(line) + b.full, b.line)
    else if line == "" then Placed([], w)
    else if |line| + 1 + |w| <= cols then Placed([], line + " " + w)
    else Placed([line], w)
  }

  /** The lines of a paragraph from its remaining words and the line so far. */
  function Fill(ws: seq<string>, line: string, cols: nat): seq<string>
    requires cols >= 1
    decreases ws
  {
    if ws == [] then Flush(line)
    else
      var p := PlaceOne(ws[0], line, cols);
      p.full + Fill(ws[1..], p.line, cols)
  }

  function ParagraphLines(p: string, cols: nat): seq<string>
    requires cols >= 1
  {
    if p == "" then [""] else Fill(Words(p), "", cols)
  }

  function LinesOf(paragraphs: seq<string>, cols: nat): seq<string>
    requires cols >= 1
    decreases |paragraphs|
  {
    if paragraphs == [] then []
    else
      var k := |paragraphs| - 1;
      LinesOf(paragraphs[..k], cols) + ParagraphLines(paragraphs[k], cols)
  }

  function AllLines(text: string, cols: nat): seq<string>
    requires cols >= 1
  {
    LinesOf(Split(text, '\n'), cols)
  }

  // ------------------------------------------------------- marking the cut

  predicate White(c: char)
  {
    c in {' ', '\t', '\n', '\r', '\U{B}', '\U{C}', '\U{A0}', '\U{FEFF}', '\U{1680}', '\U{2028}', '\U{2029}', '\U{202F}',
          '\U{205F}', '\U{3000}'}
    || '\U{2000}' <= c <= '\U{200A}'
  }

  function TrimEnd(s: string): (r: string)
    ensures r <= s
    decreases |s|
  {
    if s != "" && White(s[|s| - 1]) then TrimEnd(s[..|s| - 1]) else s
  }

  /** The text up to an index; a negative one counts from the end. */
  function SliceTo(s: string, end: int): string
  {
    if end >= 0 then (if end <= |s| then s[..end] else s)
    else if |s| + end >= 0 then s[..|s| + end]
    else ""
  }

  function Mark(last: string, cols: nat): string
  {
    TrimEnd(if |last| + 4 <= cols then last else SliceTo(last, cols - 4)) + " ..."
  }

  /** The lines that are kept, the last one marked if any were dropped. */
  function Kept(all: seq<string>, cols: nat, rows: nat): seq<string>
  {
    if |all| <= rows then all
    else if rows == 0 then []
    else all[..rows - 1] + [Mark(all[rows - 1], cols)]
  }

  function From(word: string, i: nat): string
  {
    if i <= |word| then word[i..] else ""
  }

  lemma NextChunk(word: string, i: nat, cols: nat)
    requires cols >= 1 && i < |word|
    ensures var end := if i + cols <= |word| then i + cols else |word|;
            Chunks(From(word, i), cols) == [word[i..end]] + Chunks(From(word, i + cols), cols)
  {
    if i + cols <= |word| {
      assert word[i..][..cols] == word[i..i + cols] && word[i..][cols..] == word[i + cols..];
      if i + cols == |word| {
        assert word[i..] == word[i..i + cols] && word[i + cols..] == "";
      }
    } else {
      assert word[i..] == word[i..|word|];
    }
  }

  method PushChunks(lines: seq<string>, word: string, cols: nat) returns (r: seq<string>)
    requires cols >= 1
    ensures r == lines + Chunks(word, cols)
  {
    hide From;
    r := lines;
    var i := 0;
    WholeWord(word);
    while i < |word|
      invariant r + Chunks(From(word, i), cols) == lines + Chunks(word, cols)
      decreases |word| - i
    {
      NextChunk(word, i, cols);
      hide Chunks;
      var end := if i + cols <= |word| then i + cols else |word|;
      r := r + [word[i..end]];
      i := i + cols;
    }
    NothingAfter(word, i, cols);
  }

  lemma WholeWord(word: string)
    ensures From(word, 0) == word
  {
  }

  lemma NothingAfter(word: string, i: nat, cols: nat)
    requires cols >= 1 && i >= |word|
    ensures Chunks(From(word, i), cols) == []
  {
  }

  /** A word longer than the line is cut up; a short last piece starts a line. */
  method BreakWord(before: seq<string>, word: string, cols: nat) returns (lines: seq<string>, line: string)
    requires cols >= 1 && |word| > cols
    ensures var b := Broken(Chunks(word, cols), cols);
            lines == before + b.full && line == b.line
  {
    ghost var cs := Chunks(word, cols);
    hide Chunks;
    lines := PushChunks(before, word, cols);
    assert lines[|lines| - 1] == cs[|cs| - 1];
    if lines != [] && |lines[|lines| - 1]| < cols {
      line := lines[|lines| - 1];
      lines := lines[..|lines| - 1];
    } else {
      line := "";
    }
  }

  /** One round of the loop over the words of a paragraph. */
  method PlaceWord(before: seq<string>, line: string, word: string, cols: nat)
    returns (lines: seq<string>, line': string)
    requires cols >= 1
    ensures var p := PlaceOne(word, line, cols);
            lines == before + p.full && line' == p.line
  {
    hide Chunks, Broken;
    lines, line' := before, line;
    if |word| > cols {
      if line' != "" {
        lines := lines + [line'];
        line' := "";
      }
      lines, line' := BreakWord(lines, word, cols);
    } else if line == "" {
      line' := word;
    } else if |line| + 1 + |word| <= cols {
      line' := line + " " + word;
    } else {
      lines := lines + [line];
      line' := word;
    }
  }

  method WrapParagraph(paragraph: string, cols: nat, before: seq<string>) returns (lines: seq<string>)
    requires cols >= 1 && paragraph != ""
    ensures lines == before + Fill(Words(paragraph), "", cols)
  {
    hide PlaceOne;
    lines := before;
    var line := "";
    var words := Words(paragraph);
    for k := 0 to |words|
      invariant lines + Fill(words[k..], line, cols) == before + Fill(words, "", cols)
    {
      assert words[k..][1..] == words[k + 1..];
      lines, line := PlaceWord(lines, line, words[k], cols);
    }
    if line != "" {
      lines := lines + [line];
    }
  }

  /** The wrapped page, and whether anything was cut off. */
  method WrapForPaper(text: string, cols: nat, rows: nat) returns (lines: seq<string>, truncated: bool)
    requires cols >= 1
    ensures lines == Kept(AllLines(text, cols), cols, rows)
    ensures truncated <==> |AllLines(text, cols)| > rows
  {
    var all := WrapAll(text, cols);
    hide AllLines, SliceTo, TrimEnd;
    truncated := |all| > rows;
    lines := all[..if rows <= |all| then rows else |all|];
    if truncated && lines != [] {
      var last := lines[|lines| - 1];
      var short := if |last| + 4 <= cols then last else SliceTo(last, cols - 4);
      lines := lines[..rows - 1] + [TrimEnd(short) + " ..."];
    }
  }

  /** The loop over the paragraphs. */
  method WrapAll(text: string, cols: nat) returns (all: seq<string>)
    requires cols >= 1
    ensures all == AllLines(text, cols)
  {
    hide Fill, Words, Split;
    all := [];
    var paragraphs := Split(text, '\n');
    for i := 0 to |paragraphs|
      invariant all == LinesOf(paragraphs[..i], cols)
    {
      assert paragraphs[..i + 1][..i] == paragraphs[..i];
      if paragraphs[i] == "" {
        all := all + [""];
      } else {
        all := WrapParagraph(paragraphs[i], cols, all);
      }
    }
    assert paragraphs[..|paragraphs|] == paragraphs;
  }
}
