/** The page a bot mails: an address line and the wrapped letter. */
module MailPage {
  import opened PaperWrap
  import opened PaperLayout
  import opened Petscii

  const MAIL_COLS: nat := 40
  const MAIL_ROWS: nat := 16
  const MAIL_BODY_ROWS: nat := MAIL_ROWS - 1
  /** A page of this length means an erased Paper to the server. */
  const CLEAR_SENTINEL_LENGTH: nat := 16

  function JoinLines(lines: seq<string>): string
    decreases lines
  {
    if lines == [] then "" else if |lines| == 1 then lines[0] else lines[0] + "\n" + JoinLines(lines[1..])
  }

  /** The letter, folded line by line. */
  function SanitizeLines(text: string): seq<string>
  {
    var lines := Split(text, '\n');
    seq(|lines|, i requires 0 <= i < |lines| => SanitizeForC64(lines[i]))
  }

  function Letter(body: string): string
  {
    JoinLines(SanitizeLines(body))
  }

  method BuildMailPage(recipient: string, body: string) returns (text: string, truncated: bool)
    ensures var lines := Kept(AllLines(Letter(body), MAIL_COLS), MAIL_COLS, MAIL_BODY_ROWS);
            text == Padded("to: " + recipient + "\n" + JoinLines(lines))
    ensures truncated <==> |AllLines(Letter(body), MAIL_COLS)| > MAIL_BODY_ROWS
    ensures |text| != CLEAR_SENTINEL_LENGTH
  {
    var lines;
    lines, truncated := WrapForPaper(JoinLines(SanitizeLines(body)), MAIL_COLS, MAIL_BODY_ROWS);
    text := "to: " + recipient + "\n" + JoinLines(lines);
    if |text| == CLEAR_SENTINEL_LENGTH {
      text := text + " ";
    }
  }

  function Padded(text: string): string
  {
    if |text| == CLEAR_SENTINEL_LENGTH then text + " " else text
  }

  predicate Unbroken(lines: seq<string>)
  {
    forall l | l in lines :: '\n' !in l
  }

  lemma {:induction false} SplitUnbroken(s: string)
    ensures Unbroken(Split(s, '\n'))
    decreases s
  {
    if s != "" {
      SplitUnbroken(s[1..]);
      var rest := Split(s[1..], '\n');
      assert rest[0] in rest;
      forall l | l in rest[1..] ensures '\n' !in l {
        assert l in rest;
      }
    }
  }

  lemma {:induction false} SplitOne(s: string)
    requires '\n' !in s
    ensures Split(s, '\n') == [s]
    decreases s
  {
    if s != "" {
      SplitOne(s[1..]);
      assert [s[0]] + s[1..] == s;
    }
  }

  lemma {:induction false} SplitFirst(s: string, rest: string)
    requires '\n' !in s
    ensures Split(s + "\n" + rest, '\n') == [s] + Split(rest, '\n')
    decreases s
  {
    var all := s + "\n" + rest;
    if s == "" {
      assert all[1..] == rest;
    } else {
      assert all[1..] == s[1..] + "\n" + rest;
      SplitFirst(s[1..], rest);
      assert [s[0]] + s[1..] == s;
    }
  }

  lemma {:induction false} JoinedSplits(lines: seq<string>)
    requires lines != [] && Unbroken(lines)
    ensures Split(JoinLines(lines), '\n') == lines
    decreases lines
  {
    if |lines| == 1 {
      SplitOne(lines[0]);
    } else {
      assert lines[0] in lines;
      forall l | l in lines[1..] ensures '\n' !in l {
        assert l in lines;
      }
      JoinedSplits(lines[1..]);
      SplitFirst(lines[0], JoinLines(lines[1..]));
      assert [lines[0]] + lines[1..] == lines;
    }
  }

  /** Folding keeps the author's line breaks: line by line the letter is what a C64
      can show of the body, and a letter that it can show is left as it is. */
  lemma BreaksKept(body: string)
    ensures var lines, shown := Split(body, '\n'), Split(Letter(body), '\n');
            |shown| == |lines| && forall i | 0 <= i < |lines| :: shown[i] == SanitizeForC64(lines[i])
    ensures forall l | l in Split(Letter(body), '\n') :: Plain(l)
    ensures (forall l | l in Split(body, '\n') :: Plain(l)) <==> Letter(body) == body
  {
    var lines, shown := Split(body, '\n'), SanitizeLines(body);
    hide SanitizeForC64, Plain, Split;
    forall i | 0 <= i < |lines| ensures Plain(shown[i]) && '\n' !in shown[i]
                                        && (shown[i] == lines[i] <==> Plain(lines[i]))
    {
      SanitizedExactly(lines[i]);
      PlainUnbroken(shown[i]);
    }
    JoinedSplits(shown);
    SplitJoins(body);
    if forall l | l in lines :: Plain(l) {
      assert forall i | 0 <= i < |lines| :: shown[i] == lines[i];
      assert shown == lines;
    }
  }

  lemma PlainUnbroken(s: string)
    requires Plain(s)
    ensures '\n' !in s
  {
    assert forall c | c in s :: Printable(c);
  }

  lemma {:induction false} SplitJoins(s: string)
    ensures JoinLines(Split(s, '\n')) == s
    decreases s
  {
    if s != "" {
      var rest := Split(s[1..], '\n');
      SplitJoins(s[1..]);
      SplitBefore(s);
      assert s == [s[0]] + s[1..];
      hide Split;
      JoinBefore(s[0], rest);
    }
  }

  lemma JoinBefore(c: char, lines: seq<string>)
    requires lines != []
    ensures JoinLines(Before(c, lines)) == [c] + JoinLines(lines)
  {
    if c == '\n' {
      assert ([""] + lines)[1..] == lines;
    } else {
      var more := [[c] + lines[0]] + lines[1..];
      assert more[1..] == lines[1..];
      assert |lines| > 1 ==> [c] + lines[0] + "\n" + JoinLines(lines[1..])
                             == [c] + (lines[0] + "\n" + JoinLines(lines[1..]));
    }
  }

  lemma {:induction false} ChunksUnbroken(w: string, cols: nat)
    requires cols >= 1 && '\n' !in w
    ensures Unbroken(Chunks(w, cols))
    decreases |w|
  {
    if |w| > cols {
      ChunksUnbroken(w[cols..], cols);
    }
  }

  lemma PlaceUnbroken(w: string, line: string, cols: nat)
    requires cols >= 1 && '\n' !in w && '\n' !in line
    ensures var p := PlaceOne(w, line, cols); Unbroken(p.full) && '\n' !in p.line
  {
    ChunksUnbroken(w, cols);
    hide Chunks;
    var cs := Chunks(w, cols);
    if cs != [] {
      assert cs[|cs| - 1] in cs;
      assert forall l | l in cs[..|cs| - 1] :: l in cs;
    }
  }

  lemma {:induction false} FillUnbroken(ws: seq<string>, line: string, cols: nat)
    requires cols >= 1 && Unbroken(ws) && '\n' !in line
    ensures Unbroken(Fill(ws, line, cols))
    decreases ws
  {
    hide PlaceOne;
    if ws != [] {
      assert ws[0] in ws && forall l | l in ws[1..] :: l in ws;
      PlaceUnbroken(ws[0], line, cols);
      FillUnbroken(ws[1..], PlaceOne(ws[0], line, cols).line, cols);
    }
  }

  lemma {:induction false} SkipUnbroken(s: string)
    requires '\n' !in s
    ensures '\n' !in SkipSpaces(s)
    decreases s
  {
    if s != "" && s[0] == ' ' {
      SkipUnbroken(s[1..]);
    }
  }

  lemma {:induction false} WordsUnbroken(s: string)
    requires '\n' !in s
    ensures Unbroken(Words(s))
    decreases |s|
  {
    var i := WordEnd(s);
    if i < |s| {
      SkipUnbroken(s[i..]);
      WordsUnbroken(SkipSpaces(s[i..]));
    }
  }

  lemma {:induction false} LinesUnbroken(paragraphs: seq<string>, cols: nat)
    requires cols >= 1 && Unbroken(paragraphs)
    ensures Unbroken(LinesOf(paragraphs, cols))
    decreases |paragraphs|
  {
    hide Fill, Words;
    if paragraphs != [] {
      var k := |paragraphs| - 1;
      assert paragraphs[k] in paragraphs && forall l | l in paragraphs[..k] :: l in paragraphs;
      LinesUnbroken(paragraphs[..k], cols);
      if paragraphs[k] != "" {
        WordsUnbroken(paragraphs[k]);
        FillUnbroken(Words(paragraphs[k]), "", cols);
      }
    }
  }

  lemma KeptUnbroken(all: seq<string>, cols: nat, rows: nat)
    requires Unbroken(all)
    ensures Unbroken(Kept(all, cols, rows))
  {
    if |all| > rows && rows > 0 {
      assert all[rows - 1] in all && forall l | l in all[..rows - 1] :: l in all;
      MarkUnbroken(all[rows - 1], cols);
    }
    hide Mark;
  }

  lemma MarkUnbroken(last: string, cols: nat)
    requires '\n' !in last
    ensures '\n' !in Mark(last, cols)
  {
  }

  lemma PageLines(address: string, lines: seq<string>)
    requires '\n' !in address && Unbroken(lines)
    ensures Split(address + "\n" + JoinLines(lines), '\n') == [address] + if lines == [] then [""] else lines
  {
    SplitFirst(address, JoinLines(lines));
    if lines == [] {
      SplitOne("");
    } else {
      JoinedSplits(lines);
    }
  }

  lemma {:induction false} SplitSnoc(s: string, c: char)
    requires c != '\n'
    ensures var r, k := Split(s, '\n'), |Split(s, '\n')| - 1;
            Split(s + [c], '\n') == r[..k] + [r[k] + [c]]
    decreases s
  {
    if s == "" {
      SplitOne([c]);
      assert "" + [c] == [c];
    } else {
      SplitSnoc(s[1..], c);
      SplitBefore(s);
      SplitBefore(s + [c]);
      assert (s + [c])[1..] == s[1..] + [c];
      hide Split;
      SnocLast(s[0], Split(s[1..], '\n'), c);
    }
  }

  /** The lines when one more character comes before them. */
  function Before(c: char, lines: seq<string>): seq<string>
    requires lines != []
  {
    if c == '\n' then [""] + lines else [[c] + lines[0]] + lines[1..]
  }

  lemma SplitBefore(s: string)
    requires s != ""
    ensures Split(s, '\n') == Before(s[0], Split(s[1..], '\n'))
  {
  }

  lemma SnocLast(first: char, lines: seq<string>, c: char)
    requires lines != []
    ensures var k, grown := |lines| - 1, Before(first, lines);
            Before(first, lines[..k] + [lines[k] + [c]])
            == grown[..|grown| - 1] + [grown[|grown| - 1] + [c]]
  {
    var k := |lines| - 1;
    var rest := lines[..k];
    assert lines == rest + [lines[k]];
    if first == '\n' {
      SnocBehind([""], rest, lines[k], c);
    } else if k == 0 {
      assert [first] + (lines[0] + [c]) == [first] + lines[0] + [c];
    } else {
      assert (rest + [lines[k] + [c]])[1..] == rest[1..] + [lines[k] + [c]];
      assert lines[1..] == rest[1..] + [lines[k]];
      SnocBehind([[first] + rest[0]], rest[1..], lines[k], c);
    }
  }

  lemma SnocBehind(head: seq<string>, rest: seq<string>, last: string, c: char)
    ensures var grown := head + (rest + [last]);
            head + (rest + [last + [c]]) == grown[..|grown| - 1] + [grown[|grown| - 1] + [c]]
  {
  }

  lemma PaddedLike(page: string)
    ensures Like(Split(Padded(page), '\n'), Split(page, '\n'))
    ensures |page| == CLEAR_SENTINEL_LENGTH ==> forall l | l in Split(Padded(page), '\n') :: |l| <= MAIL_COLS
  {
    hide Split, Like;
    LikeSame(Split(page, '\n'));
    if |page| == CLEAR_SENTINEL_LENGTH {
      SplitSnoc(page, ' ');
      SplitShorter(page + " ");
      LikePadded(Split(page, '\n'));
    }
  }

  lemma LikeSame(lines: seq<string>)
    ensures Like(lines, lines)
  {
  }

  lemma LikePadded(lines: seq<string>)
    requires lines != []
    ensures var k := |lines| - 1; Like(lines[..k] + [lines[k] + " "], lines)
  {
  }

  /** The address line, and at least one and at most 15 lines of the letter. */
  function RowCount(letter: string): nat
  {
    var n := |AllLines(letter, 40)|;
    1 + if n == 0 then 1 else if n <= 15 then n else 15
  }

  lemma KeptRows(letter: string)
    ensures var lines := Kept(AllLines(letter, MAIL_COLS), MAIL_COLS, MAIL_BODY_ROWS);
            && Unbroken(lines) && (forall l | l in lines :: |l| <= 40)
            && |if lines == [] then [""] else lines| + 1 == RowCount(letter)
  {
    SplitUnbroken(letter);
    LinesUnbroken(Split(letter, '\n'), MAIL_COLS);
    KeptUnbroken(AllLines(letter, MAIL_COLS), MAIL_COLS, MAIL_BODY_ROWS);
    KeptFits(letter, MAIL_COLS, MAIL_BODY_ROWS);
    hide Kept, LinesOf, Split, Unbroken;
  }

  lemma UnpaddedPageFits(recipient: string, body: string)
    requires '\n' !in recipient
    ensures var lines := Kept(AllLines(body, MAIL_COLS), MAIL_COLS, MAIL_BODY_ROWS);
            var page := "to: " + recipient + "\n" + JoinLines(lines);
            && Split(page, '\n') == ["to: " + recipient] + (if lines == [] then [""] else lines)
            && |Split(page, '\n')| == RowCount(body)
            && ((forall l | l in Split(page, '\n') :: |l| <= 40) <==> |recipient| <= 36)
  {
    hide Kept, AllLines, Split, JoinLines, RowCount, Unbroken;
    var lines := Kept(AllLines(body, MAIL_COLS), MAIL_COLS, MAIL_BODY_ROWS);
    KeptRows(body);
    NoBreak(recipient);
    PageLines("to: " + recipient, lines);
    WidthOfAll("to: " + recipient, if lines == [] then [""] else lines);
  }

  lemma NoBreak(recipient: string)
    requires '\n' !in recipient
    ensures '\n' !in "to: " + recipient && |"to: " + recipient| == |recipient| + 4
  {
  }

  lemma WidthOfAll(first: string, rest: seq<string>)
    requires forall l | l in rest :: |l| <= 40
    ensures (forall l | l in [first] + rest :: |l| <= 40) <==> |first| <= 40
  {
    assert first in [first] + rest;
  }

  lemma {:induction false} SplitShorter(s: string)
    ensures forall l | l in Split(s, '\n') :: |l| <= |s|
    decreases s
  {
    if s != "" {
      SplitShorter(s[1..]);
      var rest := Split(s[1..], '\n');
      assert rest[0] in rest && forall l | l in rest[1..] :: l in rest;
    }
  }

  /** The mailed page is never the one that means an erased sheet, and reads back
      as the address and the kept lines of the letter, but for a space it may have
      gained at the end. It has at most 16 rows, and they fit 40 columns exactly
      when the name has at most 36 characters. */
  lemma PageFits(recipient: string, body: string)
    requires '\n' !in recipient
    ensures var lines := Kept(AllLines(Letter(body), MAIL_COLS), MAIL_COLS, MAIL_BODY_ROWS);
            var page := Padded("to: " + recipient + "\n" + JoinLines(lines));
            && |page| != 16
            && (var plain := "to: " + recipient + "\n" + JoinLines(lines);
                page == if |plain| == 16 then plain + " " else plain)
            && Like(Split(page, '\n'), ["to: " + recipient] + (if lines == [] then [""] else lines))
            && |Split(page, '\n')| == RowCount(Letter(body)) <= 16
            && ((forall l | l in Split(page, '\n') :: |l| <= 40) <==> |recipient| <= 36)
  {
    UnpaddedPageFits(recipient, Letter(body));
    var lines := Kept(AllLines(Letter(body), MAIL_COLS), MAIL_COLS, MAIL_BODY_ROWS);
    hide Kept, AllLines, Split, JoinLines, Like, Letter;
    RowsFit(Letter(body));
    hide RowCount;
    PaddedLike("to: " + recipient + "\n" + JoinLines(lines));
    LikeLength("to: " + recipient + "\n" + JoinLines(lines));
  }

  lemma RowsFit(letter: string)
    ensures RowCount(letter) <= 16
  {
    hide AllLines;
  }

  lemma LikeLength(page: string)
    requires Like(Split(Padded(page), '\n'), Split(page, '\n'))
    ensures |Split(Padded(page), '\n')| == |Split(page, '\n')|
  {
  }
}
