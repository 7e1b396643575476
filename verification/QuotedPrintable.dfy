/** The quoted-printable encoder of the mail package, against section 6.7 of RFC 2045. */
module QuotedPrintable {
  import opened Wrappers

  type byte = b: int | 0 <= b < 256

  const LF: byte := 10
  const CR: byte := 13
  const EQUALS: byte := 61
  const MAX_LINE_LENGTH := 76

  predicate IsBlank(c: byte) { c == 9 || c == 32 }

  // isPrintable; a line feed never reaches it.
  predicate IsPrintable(c: byte) {
    33 <= c <= 60 || 62 <= c <= 126 || c == 32 || c == 10 || c == 9
  }

  function HexDigit(n: int): (c: byte)
    requires 0 <= n < 16
    ensures HexValue(c) == Some(n) && c != CR
  {
    if n < 10 then 48 + n else 55 + n
  }

  function HexValue(c: byte): Option<int> {
    if 48 <= c <= 57 then Some(c - 48) else if 65 <= c <= 70 then Some(c - 55) else None
  }

  // qpEscape.
  function Escape(c: byte): (r: seq<byte>)
    ensures |r| == 3
  {
    [EQUALS, HexDigit(c / 16), HexDigit(c % 16)]
  }

  function Piece(c: byte): (r: seq<byte>)
    ensures |r| == 1 || |r| == 3
  {
    if IsPrintable(c) then [c] else Escape(c)
  }

  const CRLF: seq<byte> := [CR, LF]
  const SOFT_BREAK: seq<byte> := [EQUALS, CR, LF]

  // What the encoder still writes for s when mc characters are on the current line.
  function Encoded(s: seq<byte>, mc: nat): seq<byte> {
    if s == [] then (if mc > 0 then SOFT_BREAK else [])
    else if s[0] == LF then CRLF + Encoded(s[1..], 0)
    else
      var p := Piece(s[0]);
      if mc + |p| >= MAX_LINE_LENGTH then SOFT_BREAK + (p + Encoded(s[1..], |p|))
      else p + Encoded(s[1..], mc + |p|)
  }

  /** quotePrintEncode. */
  method QuotePrintEncode(s: seq<byte>) returns (w: seq<byte>)
    ensures w == Encoded(s, 0)
  {
    w := [];
    var mc := 0;
    for i := 0 to |s|
      invariant mc >= 0 && Encoded(s, 0) == w + Encoded(s[i..], mc)
    {
      var c := s[i];
      EncodedStep(s, i, mc);
      if c == LF {
        Regroup(w, CRLF, Encoded(s[i + 1..], 0));
        w := w + CRLF;
        mc := 0;
        continue;
      }
      var nextOut: seq<byte>;
      if IsPrintable(c) {
        nextOut := [c];
      } else {
        nextOut := Escape(c);
      }
      if mc + |nextOut| >= MAX_LINE_LENGTH {
        Regroup(w, SOFT_BREAK, nextOut + Encoded(s[i + 1..], |nextOut|));
        w := w + SOFT_BREAK;
        mc := 0;
      }
      Regroup(w, nextOut, Encoded(s[i + 1..], mc + |nextOut|));
      w := w + nextOut;
      mc := mc + |nextOut|;
    }
    assert s[|s|..] == [];
    if mc > 0 {
      w := w + SOFT_BREAK;
    }
  }

  lemma Regroup(a: seq<byte>, b: seq<byte>, c: seq<byte>)
    ensures a + (b + c) == (a + b) + c
  {
  }

  // One byte of the input, as the loop handles it.
  lemma EncodedStep(s: seq<byte>, i: nat, mc: nat)
    requires i < |s|
    ensures var p := Piece(s[i]);
      Encoded(s[i..], mc) ==
        if s[i] == LF then CRLF + Encoded(s[i + 1..], 0)
        else if mc + |p| >= MAX_LINE_LENGTH then SOFT_BREAK + (p + Encoded(s[i + 1..], |p|))
        else p + Encoded(s[i + 1..], mc + |p|)
  {
    assert s[i..][0] == s[i] && s[i..][1..] == s[i + 1..];
  }

  // ---- decoding, with blanks at the ends of lines kept ----

  function Decoded(w: seq<byte>): Option<seq<byte>> {
    if w == [] then Some([])
    else if w[0] == EQUALS then
      if |w| < 3 then None
      else if w[1] == CR && w[2] == LF then Decoded(w[3..])
      else if HexValue(w[1]).Some? && HexValue(w[2]).Some? then
        Prepend(16 * HexValue(w[1]).value + HexValue(w[2]).value, Decoded(w[3..]))
      else None
    else if w[0] == CR then
      if |w| >= 2 && w[1] == LF then Prepend(LF, Decoded(w[2..])) else None
    else Prepend(w[0], Decoded(w[1..]))
  }

  function Prepend(c: byte, r: Option<seq<byte>>): Option<seq<byte>> {
    if r.None? then None else Some([c] + r.value)
  }

  lemma DecodePiece(c: byte, rest: seq<byte>)
    requires c != LF
    ensures Decoded(Piece(c) + rest) == Prepend(c, Decoded(rest))
  {
    var w := Piece(c) + rest;
    if IsPrintable(c) {
      assert w[0] == c && w[1..] == rest;
    } else {
      assert w[0] == EQUALS && w[1] == HexDigit(c / 16) && w[2] == HexDigit(c % 16) && w[3..] == rest;
    }
  }

  lemma DecodeBreaks(rest: seq<byte>)
    ensures Decoded(SOFT_BREAK + rest) == Decoded(rest)
    ensures Decoded(CRLF + rest) == Prepend(LF, Decoded(rest))
  {
    var w, v := SOFT_BREAK + rest, CRLF + rest;
    assert w[0] == EQUALS && w[1] == CR && w[2] == LF && w[3..] == rest;
    assert v[0] == CR && v[1] == LF && v[2..] == rest;
  }

  /** A decoder that keeps blanks at the ends of lines restores every byte string. */
  lemma {:induction false} RoundTrip(s: seq<byte>, mc: nat)
    ensures Decoded(Encoded(s, mc)) == Some(s)
    decreases |s|
  {
    if s == [] {
      DecodeBreaks([]);
      assert SOFT_BREAK + [] == SOFT_BREAK;
    } else {
      assert s == [s[0]] + s[1..];
      if s[0] == LF {
        RoundTrip(s[1..], 0);
        DecodeBreaks(Encoded(s[1..], 0));
      } else {
        var p := Piece(s[0]);
        if mc + |p| >= MAX_LINE_LENGTH {
          RoundTrip(s[1..], |p|);
          DecodePiece(s[0], Encoded(s[1..], |p|));
          DecodeBreaks(p + Encoded(s[1..], |p|));
        } else {
          RoundTrip(s[1..], mc + |p|);
          DecodePiece(s[0], Encoded(s[1..], mc + |p|));
        }
      }
    }
  }

  // ---- lines ----

  // No line of w is longer than allowed, when col characters are on its first line already.
  predicate LinesFit(w: seq<byte>, col: nat) {
    if w == [] then col <= 76
    else if |w| >= 2 && w[0] == CR && w[1] == LF then col <= 76 && LinesFit(w[2..], 0)
    else col < 76 && LinesFit(w[1..], col + 1)
  }

  predicate NoBreak(p: seq<byte>) {
    forall i | 0 <= i < |p| :: p[i] != CR
  }

  lemma {:induction false} PlainFits(p: seq<byte>, rest: seq<byte>, col: nat)
    requires NoBreak(p) && col + |p| <= MAX_LINE_LENGTH && LinesFit(rest, col + |p|)
    ensures LinesFit(p + rest, col)
    decreases |p|
  {
    if p == [] {
      assert p + rest == rest;
    } else {
      assert (p + rest)[0] == p[0] && (p + rest)[1..] == p[1..] + rest;
      PlainFits(p[1..], rest, col + 1);
    }
  }

  lemma BreakFits(rest: seq<byte>, col: nat)
    requires LinesFit(rest, 0) && col < MAX_LINE_LENGTH
    ensures LinesFit(CRLF + rest, col) && LinesFit(SOFT_BREAK + rest, col)
  {
    var v := CRLF + rest;
    assert v[0] == CR && v[1] == LF && v[2..] == rest;
    var w := SOFT_BREAK + rest;
    assert w[0] == EQUALS && w[1..] == v;
    assert LinesFit(v, col + 1);
  }

  lemma PieceHasNoBreak(c: byte)
    requires c != LF
    ensures NoBreak(Piece(c))
  {
  }

  /** No output line is longer than 76 characters before its CRLF. */
  lemma {:induction false} LinesAreShort(s: seq<byte>, mc: nat)
    requires mc < MAX_LINE_LENGTH
    ensures LinesFit(Encoded(s, mc), mc)
    decreases |s|
  {
    if s == [] {
      BreakFits([], mc);
      assert SOFT_BREAK + [] == SOFT_BREAK;
    } else if s[0] == LF {
      LinesAreShort(s[1..], 0);
      BreakFits(Encoded(s[1..], 0), mc);
    } else {
      var p := Piece(s[0]);
      PieceHasNoBreak(s[0]);
      if mc + |p| >= MAX_LINE_LENGTH {
        LinesAreShort(s[1..], |p|);
        PlainFits(p, Encoded(s[1..], |p|), 0);
        BreakFits(p + Encoded(s[1..], |p|), mc);
      } else {
        LinesAreShort(s[1..], mc + |p|);
        PlainFits(p, Encoded(s[1..], mc + |p|), mc);
      }
    }
  }

  // ---- trailing blanks ----

  // A blank stands right before a line break; the standard asks for it to be escaped.
  predicate BlankBefore(w: seq<byte>, breaker: byte) {
    exists i :: 0 <= i < |w| - 1 && IsBlank(w[i]) && w[i + 1] == breaker
  }

  lemma BlankHead(w: seq<byte>, breaker: byte)
    requires w != []
    ensures BlankBefore(w, breaker) <==> (|w| >= 2 && IsBlank(w[0]) && w[1] == breaker) || BlankBefore(w[1..], breaker)
  {
    var v := w[1..];
    if BlankBefore(w, breaker) {
      var i :| 0 <= i < |w| - 1 && IsBlank(w[i]) && w[i + 1] == breaker;
      assert i > 0 ==> v[i - 1] == w[i] && v[i] == w[i + 1];
    }
    if BlankBefore(v, breaker) {
      var i :| 0 <= i < |v| - 1 && IsBlank(v[i]) && v[i + 1] == breaker;
      assert w[i + 1] == v[i] && w[i + 2] == v[i + 1];
    }
  }

  // A piece put in front adds a trailing blank only when it is a blank in front of a break.
  lemma BlankAfterPiece(c: byte, rest: seq<byte>)
    requires c != LF
    ensures BlankBefore(Piece(c) + rest, CR) <==> BlankBefore(rest, CR) || (IsBlank(c) && rest != [] && rest[0] == CR)
  {
    var w := Piece(c) + rest;
    BlankHead(w, CR);
    if IsPrintable(c) {
      assert w[1..] == rest;
    } else {
      BlankHead(w[1..], CR);
      BlankHead(w[1..][1..], CR);
      assert w[1..][1..][1..] == rest;
      assert w[0] == EQUALS && w[1] == HexDigit(c / 16) && w[2] == HexDigit(c % 16);
    }
  }

  lemma BlankAfterBreak(rest: seq<byte>)
    ensures BlankBefore(CRLF + rest, CR) <==> BlankBefore(rest, CR)
    ensures BlankBefore(SOFT_BREAK + rest, CR) <==> BlankBefore(rest, CR)
  {
    var w, v := SOFT_BREAK + rest, CRLF + rest;
    assert w[1..] == v && v[1..][1..] == rest;
    BlankHead(w, CR);
    BlankHead(v, CR);
    BlankHead(v[1..], CR);
  }

  lemma StartsWithBreak(s: seq<byte>, mc: nat)
    ensures Encoded(s, mc) != [] && Encoded(s, mc)[0] == CR <==> s != [] && s[0] == LF
  {
  }

  // The column after an input byte that is not a line feed.
  function ColumnAfter(c: byte, mc: nat): nat {
    if mc + |Piece(c)| >= MAX_LINE_LENGTH then |Piece(c)| else mc + |Piece(c)|
  }

  lemma BlanksOfPiece(s: seq<byte>, mc: nat)
    requires s != [] && s[0] != LF
    requires BlankBefore(Encoded(s[1..], ColumnAfter(s[0], mc)), CR) <==> BlankBefore(s[1..], LF)
    ensures BlankBefore(Encoded(s, mc), CR) <==> BlankBefore(s, LF)
  {
    var p, rest := Piece(s[0]), Encoded(s[1..], ColumnAfter(s[0], mc));
    BlankHead(s, LF);
    StartsWithBreak(s[1..], ColumnAfter(s[0], mc));
    BlankAfterPiece(s[0], rest);
    BlankAfterBreak(p + rest);
    assert Encoded(s, mc) == p + rest || Encoded(s, mc) == SOFT_BREAK + (p + rest);
  }

  /** The rule for trailing blanks is not implemented: a blank ends an output line exactly when one
      stands before a line feed in the input. */
  lemma {:induction false} TrailingBlanks(s: seq<byte>, mc: nat)
    ensures BlankBefore(Encoded(s, mc), CR) <==> BlankBefore(s, LF)
    decreases |s|
  {
    if s == [] {
      BlankAfterBreak([]);
      assert SOFT_BREAK + [] == SOFT_BREAK;
    } else {
      if s[0] == LF {
        TrailingBlanks(s[1..], 0);
        BlankHead(s, LF);
        BlankAfterBreak(Encoded(s[1..], 0));
      } else {
        TrailingBlanks(s[1..], ColumnAfter(s[0], mc));
        BlanksOfPiece(s, mc);
      }
    }
  }

  // ---- the decoder of the standard ----

  // Rule (3) of section 6.7: white space at the end of an encoded line is deleted before decoding.
  function DropTrailing(w: seq<byte>): seq<byte> {
    if w == [] then []
    else
      var rest := DropTrailing(w[1..]);
      if IsBlank(w[0]) && (rest == [] || rest[0] == CR) then rest else [w[0]] + rest
  }

  function StandardDecoded(w: seq<byte>): Option<seq<byte>> {
    Decoded(DropTrailing(w))
  }

  lemma {:induction false} NothingDropped(w: seq<byte>)
    requires !BlankBefore(w, CR) && (w != [] ==> !IsBlank(w[|w| - 1]))
    ensures DropTrailing(w) == w
  {
    if w != [] {
      BlankHead(w, CR);
      NothingDropped(w[1..]);
      assert w == [w[0]] + w[1..];
      if |w| > 1 {
        assert IsBlank(w[0]) ==> w[1] != CR;
      }
    }
  }

  lemma DropAfterSolid(c: byte, w: seq<byte>)
    requires !IsBlank(c)
    ensures DropTrailing([c] + w) == [c] + DropTrailing(w)
  {
    assert ([c] + w)[1..] == w;
  }

  lemma DropAfterBreak(w: seq<byte>)
    ensures DropTrailing(CRLF + w) == CRLF + DropTrailing(w)
    ensures DropTrailing(SOFT_BREAK + w) == SOFT_BREAK + DropTrailing(w)
  {
    DropAfterSolid(LF, w);
    DropAfterSolid(CR, [LF] + w);
    DropAfterSolid(EQUALS, [CR] + ([LF] + w));
    assert CRLF + w == [CR] + ([LF] + w) && SOFT_BREAK + w == [EQUALS] + ([CR] + ([LF] + w));
  }

  // A piece stays, or is a blank that goes because nothing but a break follows it.
  lemma DropAfterPiece(c: byte, w: seq<byte>)
    requires c != LF
    ensures var rest := DropTrailing(w);
      DropTrailing(Piece(c) + w) == if IsBlank(c) && (rest == [] || rest[0] == CR) then rest else Piece(c) + rest
  {
    if IsPrintable(c) {
      assert ([c] + w)[1..] == w;
    } else {
      var h, l := HexDigit(c / 16), HexDigit(c % 16);
      DropAfterSolid(l, w);
      DropAfterSolid(h, [l] + w);
      DropAfterSolid(EQUALS, [h] + ([l] + w));
      assert Piece(c) + w == [EQUALS] + ([h] + ([l] + w));
      assert Piece(c) + DropTrailing(w) == [EQUALS] + ([h] + ([l] + DropTrailing(w)));
    }
  }

  lemma {:induction false} EndsInBreak(s: seq<byte>, mc: nat)
    ensures var w := Encoded(s, mc); w != [] ==> w[|w| - 1] == LF
    decreases |s|
  {
    if s != [] {
      if s[0] == LF {
        EndsInBreak(s[1..], 0);
      } else {
        EndsInBreak(s[1..], ColumnAfter(s[0], mc));
        NotEmptyYet(s[1..], ColumnAfter(s[0], mc));
        var p, rest := Piece(s[0]), Encoded(s[1..], ColumnAfter(s[0], mc));
        assert Encoded(s, mc) == p + rest || Encoded(s, mc) == SOFT_BREAK + (p + rest);
      }
    }
  }

  lemma NotEmptyYet(s: seq<byte>, mc: nat)
    requires mc > 0
    ensures Encoded(s, mc) != []
  {
  }

  // What the standard's decoder reads is no longer than the input, and shorter when a line of it ends in a blank.
  lemma {:induction false} StandardShrinks(s: seq<byte>, mc: nat)
    ensures var r := StandardDecoded(Encoded(s, mc));
      r.Some? && |r.value| <= |s| && (BlankBefore(s, LF) ==> |r.value| < |s|)
    decreases |s|
  {
    if s == [] {
      DropAfterBreak([]);
      DecodeBreaks([]);
      assert SOFT_BREAK + [] == SOFT_BREAK;
    } else if s[0] == LF {
      var w := Encoded(s[1..], 0);
      StandardShrinks(s[1..], 0);
      DropAfterBreak(w);
      DecodeBreaks(DropTrailing(w));
      BlankHead(s, LF);
    } else {
      StandardShrinks(s[1..], ColumnAfter(s[0], mc));
      PieceShrinks(s, mc);
    }
  }

  lemma PieceShrinks(s: seq<byte>, mc: nat)
    requires s != [] && s[0] != LF
    requires var r := StandardDecoded(Encoded(s[1..], ColumnAfter(s[0], mc)));
      r.Some? && |r.value| < |s| && (BlankBefore(s[1..], LF) ==> |r.value| < |s| - 1)
    ensures var r := StandardDecoded(Encoded(s, mc));
      r.Some? && |r.value| <= |s| && (BlankBefore(s, LF) ==> |r.value| < |s|)
  {
    var p, w := Piece(s[0]), Encoded(s[1..], ColumnAfter(s[0], mc));
    assert Encoded(s, mc) == p + w || Encoded(s, mc) == SOFT_BREAK + (p + w);
    DropAfterBreak(p + w);
    DecodeBreaks(DropTrailing(p + w));
    DropAfterPiece(s[0], w);
    DecodePiece(s[0], DropTrailing(w));
    BlankHead(s, LF);
    if |s| > 1 && s[1] == LF {
      DropAfterBreak(Encoded(s[1..][1..], 0));
    }
  }

  /** The decoder of the standard restores the input exactly when no line of the input ends in a blank. */
  lemma StandardRoundTrip(s: seq<byte>)
    ensures StandardDecoded(Encoded(s, 0)) == Some(s) <==> !BlankBefore(s, LF)
  {
    StandardShrinks(s, 0);
    if !BlankBefore(s, LF) {
      TrailingBlanks(s, 0);
      EndsInBreak(s, 0);
      NothingDropped(Encoded(s, 0));
      RoundTrip(s, 0);
    }
  }

  /** A space in front of a line feed is lost. */
  lemma BlankIsLost()
    ensures StandardDecoded(Encoded([32, LF], 0)) == Some([LF])
  {
    var s: seq<byte> := [32, LF];
    assert s[1..] == [LF] && [LF][1..] == [];
    assert Encoded([LF], 1) == CRLF + Encoded([], 0) == CRLF;
    assert Encoded(s, 0) == [32] + CRLF == [32, CR, LF];
    DropAfterBreak([]);
    assert DropTrailing([]) == [] && CRLF + [] == CRLF;
    assert [32, CR, LF][1..] == CRLF;
    assert DropTrailing([32, CR, LF]) == CRLF;
    DecodeBreaks([]);
  }

  // A character that RFC 2045 lets stand for itself: printable, no equals sign, or a blank.
  predicate Readable(c: byte) {
    ('!' as int <= c <= '~' as int && c != '=' as int) || c == ' ' as int || c == '\t' as int
  }

  lemma ReadableStays(c: byte)
    ensures Readable(c) ==> Piece(c) == [c]
    ensures !Readable(c) && c != LF ==> |Piece(c)| == 3 && Piece(c)[0] == EQUALS
  {
  }

  /** Text of readable characters that fits on a line stays as it is, with a soft break behind it. */
  lemma {:induction false} ShortTextStays(s: seq<byte>, mc: nat)
    requires (forall i | 0 <= i < |s| :: Readable(s[i])) && mc + |s| < MAX_LINE_LENGTH
    ensures Encoded(s, mc) == if mc + |s| > 0 then s + SOFT_BREAK else []
  {
    if s == [] {
      assert s + SOFT_BREAK == SOFT_BREAK;
    } else {
      ReadableStays(s[0]);
      ShortTextStays(s[1..], mc + 1);
      assert [s[0]] + (s[1..] + SOFT_BREAK) == s + SOFT_BREAK;
    }
  }
}
