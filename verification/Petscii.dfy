/** Folding a bot's text to the characters a C64 can show. */
module Petscii {
  import opened PaperWrap

  const FACE := ":-)"

  predicate Printable(c: char)
  {
    ' ' <= c <= '~'
  }

  predicate Emoji(c: char)
  {
    '\U{1F300}' <= c <= '\U{1FAFF}' || '\U{2600}' <= c <= '\U{27BF}' || '\U{1F000}' <= c <= '\U{1F2FF}'
  }

  /** Typography and emoji are replaced, everything else outside printable ASCII is
      dropped, spaces of other widths included. */
  function FoldChar(c: char): string
  {
    if '\U{2018}' <= c <= '\U{201B}' then "'"
    else if '\U{201C}' <= c <= '\U{201F}' then "\""
    else if '\U{2013}' <= c <= '\U{2015}' then "-"
    else if c == '\U{2026}' then "..."
    else if c == '\U{B7}' || c == '\U{2022}' then "*"
    else if Emoji(c) then FACE
    else if Printable(c) then [c]
    else ""
  }

  function Fold(s: string): string
    decreases s
  {
    if s == "" then "" else FoldChar(s[0]) + Fold(s[1..])
  }

  /** The text behind any faces that follow with nothing but spaces between. */
  function SkipFaces(s: string): (r: string)
    ensures |r| <= |s| && !(FACE <= SkipSpaces(r))
    decreases |s|
  {
    var u := SkipSpaces(s);
    if FACE <= u then SkipFaces(u[3..]) else s
  }

  /** Runs of faces become one. */
  function Collapse(s: string): string
    decreases |s|
  {
    if s == "" then ""
    else if FACE <= s then FACE + Collapse(SkipFaces(s[3..]))
    else [s[0]] + Collapse(s[1..])
  }

  /** Only spaces are left to trim. */
  function SanitizeForC64(text: string): string
  {
    TrimEnd(SkipSpaces(Collapse(Fold(text))))
  }

  /** No face is followed by another with nothing but spaces between. */
  ghost predicate Single(s: string)
    decreases |s|
  {
    s == "" || (Single(s[1..]) && (FACE <= s ==> !(FACE <= SkipSpaces(s[3..]))))
  }

  /** What a C64 shows as it is. */
  ghost predicate Plain(s: string)
  {
    && (forall c | c in s :: Printable(c)) && Single(s)
    && (s != "" ==> s[0] != ' ' && s[|s| - 1] != ' ')
  }

  lemma FoldedChar(c: char)
    ensures forall d | d in FoldChar(c) :: Printable(d)
    ensures Printable(c) ==> FoldChar(c) == [c]
  {
  }

  lemma {:induction false} FoldPrintable(s: string)
    ensures forall c | c in Fold(s) :: Printable(c)
    ensures (forall c | c in s :: Printable(c)) ==> Fold(s) == s
    decreases s
  {
    hide FoldChar, Printable;
    if s != "" {
      FoldedChar(s[0]);
      FoldPrintable(s[1..]);
      assert s == [s[0]] + s[1..] && s[0] in s && forall c | c in s[1..] :: c in s;
    }
  }

  lemma {:induction false} SkippedChars(s: string)
    ensures forall c | c in SkipSpaces(s) :: c in s
    decreases s
  {
    if s != "" && s[0] == ' ' {
      SkippedChars(s[1..]);
    }
  }

  lemma {:induction false} SkippedFaces(s: string)
    ensures forall c | c in SkipFaces(s) :: c in s
    decreases |s|
  {
    var u := SkipSpaces(s);
    SkippedChars(s);
    if FACE <= u {
      SkippedFaces(u[3..]);
      assert forall c | c in u[3..] :: c in u;
    }
  }

  lemma {:induction false} CollapsePrintable(s: string)
    requires forall c | c in s :: Printable(c)
    ensures forall c | c in Collapse(s) :: Printable(c)
    decreases |s|
  {
    if s == "" {
    } else if FACE <= s {
      assert forall c | c in s[3..] :: c in s;
      SkippedFaces(s[3..]);
      CollapsePrintable(SkipFaces(s[3..]));
    } else {
      assert forall c | c in s[1..] :: c in s;
      CollapsePrintable(s[1..]);
    }
  }

  lemma SingleTail(s: string)
    requires Single(s) && |s| >= 3
    ensures Single(s[3..])
  {
    assert s[1..][1..] == s[2..] && s[2..][1..] == s[3..];
    assert Single(s[1..]);
    assert Single(s[2..]);
    hide SkipSpaces;
  }

  lemma {:induction false} CollapseSame(s: string)
    requires Single(s)
    ensures Collapse(s) == s
    decreases |s|
  {
    if s == "" {
    } else if FACE <= s {
      SingleTail(s);
      CollapseSame(s[3..]);
      assert s == FACE + s[3..];
    } else {
      CollapseSame(s[1..]);
    }
  }

  /** Collapsing does not touch the first character. */
  lemma CollapseHead(s: string)
    ensures |Collapse(s)| == 0 <==> s == ""
    ensures s != "" ==> Collapse(s)[0] == s[0]
  {
  }

  /** A face at the start of a collapsed text was there before. */
  lemma FaceWasThere(s: string)
    ensures FACE <= Collapse(s) <==> FACE <= s
  {
    if !(FACE <= s) && |s| >= 2 {
      CollapseHead(s[1..]);
      if s[0] == ':' && s[1] == '-' {
        assert s[1..][1..] == s[2..];
        assert Collapse(s[1..]) == [s[1]] + Collapse(s[2..]);
        CollapseHead(s[2..]);
        hide Collapse;
      }
    }
  }

  lemma {:induction false} SpacedFaceWasThere(s: string)
    requires FACE <= SkipSpaces(Collapse(s))
    ensures FACE <= SkipSpaces(s)
    decreases |s|
  {
    CollapseHead(s);
    if s[0] == ' ' {
      assert Collapse(s)[1..] == Collapse(s[1..]);
      SpacedFaceWasThere(s[1..]);
    } else {
      FaceWasThere(s);
    }
  }

  lemma SingleFace(y: string)
    requires Single(y) && !(FACE <= SkipSpaces(y))
    ensures Single(FACE + y)
  {
    var s := FACE + y;
    assert s[3..] == y && s[2..][1..] == y && s[1..][1..] == s[2..];
    assert s[2..][0] == ')' && s[1..][0] == '-';
    assert Single(s[2..]);
    assert Single(s[1..]);
  }

  lemma {:induction false} CollapseSingle(s: string)
    ensures Single(Collapse(s))
    decreases |s|
  {
    if s == "" {
    } else if FACE <= s {
      var rest := SkipFaces(s[3..]);
      CollapseSingle(rest);
      if FACE <= SkipSpaces(Collapse(rest)) {
        SpacedFaceWasThere(rest);
      }
      SingleFace(Collapse(rest));
    } else {
      CollapseSingle(s[1..]);
      assert Collapse(s)[1..] == Collapse(s[1..]);
      FaceWasThere(s);
    }
  }

  lemma {:induction false} SkipSingle(s: string)
    requires Single(s)
    ensures Single(SkipSpaces(s))
    decreases s
  {
    if s != "" && s[0] == ' ' {
      SkipSingle(s[1..]);
    }
  }

  lemma {:induction false} SkipPrefix(p: string, s: string)
    requires p <= s && FACE <= SkipSpaces(p)
    ensures FACE <= SkipSpaces(s)
    decreases p
  {
    if p[0] == ' ' {
      assert p[1..] <= s[1..];
      SkipPrefix(p[1..], s[1..]);
    }
  }

  lemma {:induction false} PrefixSingle(p: string, s: string)
    requires p <= s && Single(s)
    ensures Single(p)
    decreases p
  {
    if p != "" {
      assert p[1..] <= s[1..];
      PrefixSingle(p[1..], s[1..]);
      if FACE <= p && FACE <= SkipSpaces(p[3..]) {
        assert p[3..] <= s[3..];
        SkipPrefix(p[3..], s[3..]);
      }
    }
  }

  lemma {:induction false} TrimmedEnd(s: string)
    ensures var r := TrimEnd(s); r != "" ==> !White(r[|r| - 1])
    ensures s != "" && !White(s[|s| - 1]) ==> TrimEnd(s) == s
    decreases |s|
  {
    if s != "" && White(s[|s| - 1]) {
      TrimmedEnd(s[..|s| - 1]);
    }
  }

  /** What comes out is plain, and plain text is what comes out as it went in; so
      sanitizing twice is sanitizing once. */
  lemma SanitizedExactly(text: string)
    ensures Plain(SanitizeForC64(text))
    ensures SanitizeForC64(text) == text <==> Plain(text)
  {
    SanitizedIsPlain(text);
    if Plain(text) {
      FoldPrintable(text);
      CollapseSame(text);
      TrimmedEnd(text);
      hide Fold, Collapse, Single;
      if text != "" {
        assert text[|text| - 1] in text;
      }
    }
  }

  lemma SanitizedIsPlain(text: string)
    ensures Plain(SanitizeForC64(text))
  {
    var shown := SkipSpaces(Collapse(Fold(text)));
    FoldPrintable(text);
    CollapsePrintable(Fold(text));
    CollapseSingle(Fold(text));
    SkipSingle(Collapse(Fold(text)));
    SkippedChars(Collapse(Fold(text)));
    TrimmedEnd(shown);
    PrefixSingle(TrimEnd(shown), shown);
    hide Fold, Collapse, Single, SkipSpaces, TrimEnd;
    assert forall c | c in TrimEnd(shown) :: c in shown;
  }

  lemma WideSpaceDropped(a: string, b: string)
    requires (forall c | c in a :: Printable(c)) && (forall c | c in b :: Printable(c))
    ensures Fold(a + "\U{A0}" + b) == a + b
  {
    FoldPrintable(a);
    FoldPrintable(b);
    assert Fold("\U{A0}") == "" by {
      assert "\U{A0}"[1..] == "";
    }
    hide Fold;
    FoldConcat(a + "\U{A0}", b);
    FoldConcat(a, "\U{A0}");
  }

  /** A space of another width is dropped, not replaced by a space. */
  lemma WideSpaceWelds(a: string, b: string)
    requires Plain(a) && Plain(b) && Plain(a + b)
    ensures SanitizeForC64(a + "\U{A0}" + b) == a + b
  {
    hide Fold, Collapse, Single, SkipSpaces, TrimEnd, Printable;
    WideSpaceDropped(a, b);
    FoldPrintable(a + b);
    SanitizedExactly(a + b);
  }

  lemma {:induction false} FoldConcat(a: string, b: string)
    ensures Fold(a + b) == Fold(a) + Fold(b)
    decreases a
  {
    if a == "" {
      assert a + b == b;
    } else {
      assert (a + b)[1..] == a[1..] + b;
      FoldConcat(a[1..], b);
    }
  }

  // --------------------------------------------------- what becomes of the rest

  /** The text c may be replaced by `form` without any difference to the result. */
  ghost predicate ShownAs(c: char, form: string)
  {
    forall a, b :: SameShown(a, c, form, b)
  }

  predicate SameShown(a: string, c: char, form: string, b: string)
  {
    SanitizeForC64(a + [c] + b) == SanitizeForC64(a + form + b)
  }

  /** Whatever stands around it, typography is shown as its ASCII form, an emoji as a
      face, and any other character that a C64 cannot show as nothing. */
  lemma ShownExactly(c: char)
    ensures c in {'\U{2018}', '\U{2019}', '\U{201A}', '\U{201B}'} ==> ShownAs(c, "'")
    ensures c in {'\U{201C}', '\U{201D}', '\U{201E}', '\U{201F}'} ==> ShownAs(c, "\"")
    ensures c in {'\U{2013}', '\U{2014}', '\U{2015}'} ==> ShownAs(c, "-")
    ensures c == '\U{2026}' ==> ShownAs(c, "...")
    ensures c in {'\U{00B7}', '\U{2022}'} ==> ShownAs(c, "*")
    ensures InEmojiRanges(c) ==> ShownAs(c, ":-)")
    ensures !(' ' <= c <= '~') && !HasForm(c) ==> ShownAs(c, "")
  {
    FormOf(c);
    hide FoldChar, HasForm, InEmojiRanges;
    forall form: string | FoldChar(c) == form && (forall d | d in form :: Printable(d)) ensures ShownAs(c, form) {
      ReplacedByForm(c, form);
    }
  }

  predicate InEmojiRanges(c: char)
  {
    0x1F300 <= c as int <= 0x1FAFF || 0x2600 <= c as int <= 0x27BF || 0x1F000 <= c as int <= 0x1F2FF
  }

  predicate HasForm(c: char)
  {
    || InEmojiRanges(c)
    || c in {'\U{2018}', '\U{2019}', '\U{201A}', '\U{201B}', '\U{201C}', '\U{201D}', '\U{201E}', '\U{201F}',
             '\U{2013}', '\U{2014}', '\U{2015}', '\U{2026}', '\U{00B7}', '\U{2022}'}
  }

  lemma FormOf(c: char)
    ensures c in {'\U{2018}', '\U{2019}', '\U{201A}', '\U{201B}'} ==> FoldChar(c) == "'"
    ensures c in {'\U{201C}', '\U{201D}', '\U{201E}', '\U{201F}'} ==> FoldChar(c) == "\""
    ensures c in {'\U{2013}', '\U{2014}', '\U{2015}'} ==> FoldChar(c) == "-"
    ensures c == '\U{2026}' ==> FoldChar(c) == "..."
    ensures c in {'\U{00B7}', '\U{2022}'} ==> FoldChar(c) == "*"
    ensures InEmojiRanges(c) ==> FoldChar(c) == ":-)"
    ensures !(' ' <= c <= '~') && !HasForm(c) ==> FoldChar(c) == ""
    ensures forall d | d in FoldChar(c) :: Printable(d)
  {
    FoldedChar(c);
  }

  lemma ReplacedByForm(c: char, form: string)
    requires FoldChar(c) == form && forall d | d in form :: Printable(d)
    ensures ShownAs(c, form)
  {
    FoldPrintable(form);
    FoldOne(c);
    hide Fold, FoldChar, Collapse, SkipSpaces, TrimEnd;
    forall a, b ensures SameShown(a, c, form, b) {
      FoldConcat(a + [c], b);
      FoldConcat(a, [c]);
      FoldConcat(a + form, b);
      FoldConcat(a, form);
    }
  }

  lemma FoldOne(c: char)
    ensures Fold([c]) == FoldChar(c)
  {
    assert [c][1..] == "";
  }

  // ------------------------------------------------------------- runs of faces

  predicate Blank(s: string)
  {
    forall c | c in s :: c == ' '
  }

  lemma {:induction false} SkipBlank(sp: string, rest: string)
    requires Blank(sp)
    ensures SkipSpaces(sp + rest) == SkipSpaces(rest)
    decreases sp
  {
    if sp == "" {
      assert sp + rest == rest;
    } else {
      assert sp[0] in sp && (sp + rest)[1..] == sp[1..] + rest && forall c | c in sp[1..] :: c in sp;
      SkipBlank(sp[1..], rest);
    }
  }

  lemma SkipOneFace(sp: string, q: string)
    requires Blank(sp)
    ensures SkipFaces(sp + FACE + q) == SkipFaces(q)
  {
    SkipBlank(sp, FACE + q);
    assert sp + FACE + q == sp + (FACE + q);
    assert SkipSpaces(FACE + q) == FACE + q && (FACE + q)[3..] == q;
  }

  /** No face begins in a text and ends in a face behind it. */
  lemma NoStraddle(p: string, q: string)
    requires p != ""
    ensures FACE <= p + FACE + q <==> FACE <= p
  {
    var s := p + FACE + q;
    if |p| == 1 {
      assert s[1] == ':';
    } else if |p| == 2 {
      assert s[2] == ':';
    } else {
      assert s[..3] == p[..3];
    }
  }

  lemma {:induction false} SpacesThen(p: string, q: string)
    ensures SkipSpaces(p + q) == if SkipSpaces(p) == "" then SkipSpaces(q) else SkipSpaces(p) + q
    decreases p
  {
    if p == "" {
      assert p + q == q;
    } else if p[0] == ' ' {
      assert (p + q)[1..] == p[1..] + q;
      SpacesThen(p[1..], q);
    }
  }

  lemma SkipOn(p: string, t: string)
    ensures var u := SkipSpaces(p);
            SkipFaces(p + FACE + t) == if u == "" then SkipFaces(t)
                                       else if FACE <= u then SkipFaces(u[3..] + FACE + t)
                                       else p + FACE + t
  {
    var u := SkipSpaces(p);
    SpacesThen(p, FACE + t);
    hide SkipSpaces;
    assert p + FACE + t == p + (FACE + t) && u + FACE + t == u + (FACE + t);
    if u == "" {
      SkipOneFace("", t);
      assert "" + FACE + t == FACE + t;
      SkipAgain(p + FACE + t, FACE + t);
    } else {
      NoStraddle(u, t);
      assert FACE <= u ==> (u + FACE + t)[3..] == u[3..] + FACE + t;
    }
  }

  lemma SkipAgain(s: string, t: string)
    requires SkipSpaces(s) == SkipSpaces(t) && FACE <= SkipSpaces(t)
    ensures SkipFaces(s) == SkipFaces(t)
  {
  }

  /** How faces are skipped before a face: all of p is, or all but a part of it that
      does not depend on what comes later. */
  lemma {:induction false} SkipBefore(p: string) returns (rest: string)
    ensures |rest| <= |p|
    ensures forall t :: SkipFaces(p + FACE + t) == if SkipSpaces(rest) == "" then SkipFaces(t) else rest + FACE + t
    decreases |p|
  {
    var u := SkipSpaces(p);
    if FACE <= u {
      rest := SkipBefore(u[3..]);
    } else {
      rest := p;
    }
    hide SkipSpaces, SkipFaces;
    forall t ensures SkipFaces(p + FACE + t) == if SkipSpaces(rest) == "" then SkipFaces(t) else rest + FACE + t {
      SkipOn(p, t);
    }
  }

  lemma CollapseFace(q: string)
    ensures Collapse(FACE + q) == FACE + Collapse(SkipFaces(q))
  {
    assert (FACE + q)[3..] == q;
  }

  lemma CollapseOther(p: string, s: string)
    requires p != "" && !(FACE <= p + s)
    ensures Collapse(p + s) == [p[0]] + Collapse(p[1..] + s)
  {
    assert (p + s)[1..] == p[1..] + s;
  }

  lemma {:induction false} CollapseRun(p: string, sp: string, q: string)
    requires Blank(sp)
    ensures Collapse(p + FACE + (sp + FACE + q)) == Collapse(p + FACE + q)
    decreases |p|
  {
    hide Collapse, SkipFaces, SkipSpaces;
    var t := sp + FACE + q;
    SkipOneFace(sp, q);
    if p == "" {
      CollapseFace(t);
      CollapseFace(q);
      assert p + FACE + t == FACE + t && p + FACE + q == FACE + q;
    } else if FACE <= p {
      var after := p[3..];
      assert p + FACE + t == FACE + (after + FACE + t) && p + FACE + q == FACE + (after + FACE + q);
      CollapseFace(after + FACE + t);
      CollapseFace(after + FACE + q);
      var rest := SkipBefore(after);
      CollapseRun(rest, sp, q);
    } else {
      NoStraddle(p, t);
      NoStraddle(p, q);
      assert p + FACE + t == p + (FACE + t) && p + FACE + q == p + (FACE + q);
      CollapseOther(p, FACE + t);
      CollapseOther(p, FACE + q);
      CollapseRun(p[1..], sp, q);
      assert p[1..] + FACE + t == p[1..] + (FACE + t) && p[1..] + FACE + q == p[1..] + (FACE + q);
    }
  }

  lemma FoldFaces(a: string, sp: string, b: string)
    requires Blank(sp)
    ensures Fold(a + FACE + sp + FACE + b) == Fold(a) + FACE + (sp + FACE + Fold(b))
  {
    FoldPrintable(FACE);
    FoldPrintable(sp);
    hide Fold;
    FoldConcat(a + FACE + sp + FACE, b);
    FoldConcat(a + FACE + sp, FACE);
    FoldConcat(a + FACE, sp);
    FoldConcat(a, FACE);
    var p, q := Fold(a), Fold(b);
    assert p + FACE + sp + FACE + q == p + FACE + (sp + FACE + q);
  }

  /** Faces with nothing but spaces between are shown as one, whatever stands around
      them. */
  lemma FacesMerge(a: string, sp: string, b: string)
    requires Blank(sp)
    ensures SanitizeForC64(a + ":-)" + sp + ":-)" + b) == SanitizeForC64(a + ":-)" + b)
  {
    FoldPrintable(FACE);
    hide Fold, Collapse, SkipSpaces, TrimEnd;
    FoldFaces(a, sp, b);
    FoldConcat(a + FACE, b);
    FoldConcat(a, FACE);
    CollapseRun(Fold(a), sp, Fold(b));
  }
}
