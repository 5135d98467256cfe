/** The byte-stuffing layer below the QLink frames: no escaped packet contains
    the frame terminator, and descaping undoes escaping. */
module HabitatEscape {
  import opened Bits

  const END_OF_MESSAGE: Byte := 0x0D
  const ESCAPE_CHAR: Byte := 0x5D
  const ESCAPE_XOR: Byte := 0x55

  predicate MustEscape(b: Byte)
  {
    b == END_OF_MESSAGE || b == ESCAPE_CHAR
  }

  function XorMask(b: Byte): Byte
  {
    XorByte(b, ESCAPE_XOR);
    Xor(b, ESCAPE_XOR)
  }

  function EscapeByte(b: Byte): seq<Byte>
  {
    if MustEscape(b) then [ESCAPE_CHAR, XorMask(b)] else [b]
  }

  function EscapeSeq(s: seq<Byte>): seq<Byte>
  {
    if s == [] then [] else EscapeByte(s[0]) + EscapeSeq(s[1..])
  }

  /** Undoes escaping; a lone escape marker at the very end is dropped. */
  function DescapeSeq(s: seq<Byte>): seq<Byte>
  {
    if s == [] then []
    else if s[0] != ESCAPE_CHAR then [s[0]] + DescapeSeq(s[1..])
    else if |s| == 1 then []
    else [XorMask(s[1])] + DescapeSeq(s[2..])
  }

  method Escape(descaped: seq<Byte>) returns (escaped: seq<Byte>)
    ensures escaped == EscapeSeq(descaped)
  {
    hide Xor, EscapeSeq, XorMask;
    escaped := [];
    for i := 0 to |descaped|
      invariant escaped + EscapeSeq(descaped[i..]) == EscapeSeq(descaped)
    {
      EscapeNext(descaped[i..], escaped);
      assert descaped[i..][1..] == descaped[i + 1..];
      ghost var before := escaped;
      var curByte := descaped[i];
      if curByte == END_OF_MESSAGE || curByte == ESCAPE_CHAR {
        escaped := escaped + [ESCAPE_CHAR];
        curByte := XorMask(curByte);
      }
      escaped := escaped + [curByte];
      assert escaped == before + EscapeByte(descaped[i]);
    }
    EscapeNone(descaped[|descaped|..]);
  }

  lemma EscapeNext(rest: seq<Byte>, before: seq<Byte>)
    requires rest != []
    ensures before + EscapeSeq(rest) == before + EscapeByte(rest[0]) + EscapeSeq(rest[1..])
  {
    hide EscapeByte;
  }

  lemma EscapeNone(rest: seq<Byte>)
    requires rest == []
    ensures EscapeSeq(rest) == []
  {
  }

  function Rest(s: seq<Byte>, i: nat): seq<Byte>
  {
    if i <= |s| then s[i..] else []
  }

  /** Descapes everything after the first `skip` bytes. */
  method Descape(escaped: seq<Byte>, skip: nat) returns (descaped: seq<Byte>)
    ensures descaped == DescapeSeq(Rest(escaped, skip))
  {
    hide DescapeSeq, XorMask, Rest;
    descaped := [];
    var i := skip;
    while i < |escaped|
      invariant descaped + DescapeSeq(Rest(escaped, i)) == DescapeSeq(Rest(escaped, skip))
    {
      DescapeNext(escaped, i, descaped);
      var curByte := escaped[i];
      if curByte == ESCAPE_CHAR {
        i := i + 1;
        if i >= |escaped| {
          break;
        }
        curByte := XorMask(escaped[i]);
      }
      descaped := descaped + [curByte];
      i := i + 1;
    }
    DescapeNone(escaped, i);
  }

  lemma DescapeNext(s: seq<Byte>, i: nat, before: seq<Byte>)
    requires i < |s|
    ensures var all := before + DescapeSeq(Rest(s, i));
            if s[i] != ESCAPE_CHAR then all == before + [s[i]] + DescapeSeq(Rest(s, i + 1))
            else if i + 1 < |s| then all == before + [XorMask(s[i + 1])] + DescapeSeq(Rest(s, i + 2))
            else all == before
  {
    hide XorMask;
    var rest := s[i..];
    assert rest[1..] == s[i + 1..];
    if i + 1 < |s| {
      assert rest[2..] == s[i + 2..];
    }
  }

  lemma DescapeNone(s: seq<Byte>, i: nat)
    requires i >= |s|
    ensures DescapeSeq(Rest(s, i)) == []
  {
  }

  lemma MaskUndoes(b: Byte)
    ensures XorMask(XorMask(b)) == b
  {
    XorUndoes(b, ESCAPE_XOR);
  }

  /** What the two escaped bytes become. */
  lemma MaskedSpecials()
    ensures XorMask(END_OF_MESSAGE) == 0x58 && XorMask(ESCAPE_CHAR) == 0x08
  {
    hide Xor;
    assert Xor(0x0D, 0x55) == 0x58 by {
      XorZero(5);
      XorUnfold(1, 10);
      XorUnfold(3, 21);
      XorUnfold(6, 42);
      XorUnfold(0x0D, 0x55);
    }
    assert Xor(0x5D, 0x55) == 0x08 by {
      XorIsZero(5, 5);
      XorUnfold(11, 10);
      XorUnfold(23, 21);
      XorUnfold(46, 42);
      XorUnfold(0x5D, 0x55);
    }
  }

  lemma {:induction false} EscapeRoundTrip(s: seq<Byte>)
    ensures DescapeSeq(EscapeSeq(s)) == s
  {
    if s != [] {
      hide Xor, XorMask;
      var head, tail := EscapeByte(s[0]), EscapeSeq(s[1..]);
      EscapeRoundTrip(s[1..]);
      MaskUndoes(s[0]);
      assert (head + tail)[|head|..] == tail;
    }
  }

  /** Descaping behind any prefix recovers the packet that was escaped there. */
  lemma DescapeAfterPrefix(prefix: seq<Byte>, s: seq<Byte>)
    ensures DescapeSeq((prefix + EscapeSeq(s))[|prefix|..]) == s
  {
    assert (prefix + EscapeSeq(s))[|prefix|..] == EscapeSeq(s);
    EscapeRoundTrip(s);
  }

  lemma {:induction false} EscapeHidesFrameEnd(s: seq<Byte>)
    ensures END_OF_MESSAGE !in EscapeSeq(s)
  {
    if s != [] {
      EscapeHidesFrameEnd(s[1..]);
      MaskedSpecials();
    }
  }

  /** Escaping keeps the packet's length within a factor of two, and its first
      byte when that needs no escaping. */
  lemma {:induction false} EscapeLength(s: seq<Byte>)
    ensures |s| <= |EscapeSeq(s)| <= 2 * |s|
    ensures s != [] && !MustEscape(s[0]) ==> EscapeSeq(s)[0] == s[0]
  {
    if s != [] {
      EscapeLength(s[1..]);
    }
  }

  /** Byte by byte: only 0x0D and 0x5D are replaced, each by two bytes. */
  lemma EscapedExactly(b: Byte)
    ensures EscapeSeq([b]) == if b == 0x0D then [0x5D, 0x58] else if b == 0x5D then [0x5D, 0x08] else [b]
  {
    MaskedSpecials();
    hide XorMask;
    assert [b][1..] == [];
  }

  /** A marker is followed by one masked byte, whatever that is; alone it is nothing. */
  lemma DescapedExactly(b: Byte, rest: seq<Byte>)
    ensures DescapeSeq([0x5D]) == []
    ensures Xor(b, 0x55) < 0x100 && DescapeSeq([0x5D, b] + rest) == [Xor(b, 0x55)] + DescapeSeq(rest)
    ensures b != 0x5D ==> DescapeSeq([b] + rest) == [b] + DescapeSeq(rest)
  {
    XorByte(b, 0x55);
    hide Xor;
    assert ([0x5D, b] + rest)[2..] == rest && ([b] + rest)[1..] == rest;
  }

  lemma {:induction false} EscapeConcat(a: seq<Byte>, b: seq<Byte>)
    ensures EscapeSeq(a + b) == EscapeSeq(a) + EscapeSeq(b)
  {
    hide EscapeByte;
    if a == [] {
      assert a + b == b;
    } else {
      assert (a + b)[1..] == a[1..] + b;
      EscapeConcat(a[1..], b);
    }
  }
}
