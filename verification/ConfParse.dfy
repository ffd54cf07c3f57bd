/** Quoting, unquoting and argument lists of Click configuration strings
    (click-dpdk/lib/confparse.cc). Strings are sequences of bytes and pointers are positions;
    like the source's pointers, positions may run past the end inside unterminated comments. */
module ConfParse {
  import opened Bits

  const DQUOTE: Byte := 34
  const DOLLAR: Byte := 36
  const SQUOTE: Byte := 39
  const STAR: Byte := 42
  const COMMA: Byte := 44
  const SLASH: Byte := 47
  const ZERO: Byte := 48
  const LT: Byte := 60
  const GT: Byte := 62
  const BACKSLASH: Byte := 92
  const SPACE: Byte := 32
  const TAB: Byte := 9
  const NEWLINE: Byte := 10
  const RETURN: Byte := 13

  type Str = Bytes

  predicate IsSpace(b: Byte) { b == SPACE || 9 <= b <= 13 }

  /** String::substring on two pointers. */
  function Substring(s: Str, begin: nat, end: nat): Str {
    if begin < end <= |s| then s[begin..end] else []
  }

  /** A comment opens at position p. */
  predicate CommentAt(s: Str, p: nat) {
    p + 1 < |s| && s[p] == SLASH && (s[p + 1] == SLASH || s[p + 1] == STAR)
  }

  // ---------- skipping ----------

  function LineEnd(s: Str, p: nat): nat
    decreases |s| - p
  {
    if p + 1 < |s| && s[p] != NEWLINE && s[p] != RETURN then LineEnd(s, p + 1) else p
  }

  function StarSlash(s: Str, p: nat): nat
    decreases |s| - p
  {
    if p + 2 < |s| && (s[p] != STAR || s[p + 1] != SLASH) then StarSlash(s, p + 1) else p
  }

  /** The position after the comment at p. */
  function SkipCommentSpec(s: Str, p: nat): (r: nat)
    requires CommentAt(s, p)
    ensures r > p + 1
  {
    LineEndAfter(s, p + 2);
    StarSlashAfter(s, p + 2);
    if s[p + 1] == SLASH then
      var q := LineEnd(s, p + 2);
      (if q + 1 < |s| && s[q] == RETURN && s[q + 1] == NEWLINE then q + 1 else q) + 1
    else StarSlash(s, p + 2) + 2
  }

  lemma {:induction false} LineEndAfter(s: Str, p: nat)
    ensures LineEnd(s, p) >= p
    decreases |s| - p
  {
    if p + 1 < |s| && s[p] != NEWLINE && s[p] != RETURN { LineEndAfter(s, p + 1); }
  }

  lemma {:induction false} StarSlashAfter(s: Str, p: nat)
    ensures StarSlash(s, p) >= p
    decreases |s| - p
  {
    if p + 2 < |s| && (s[p] != STAR || s[p + 1] != SLASH) { StarSlashAfter(s, p + 1); }
  }

  method SkipComment(s: Str, begin: nat) returns (p: nat)
    requires CommentAt(s, begin)
    ensures p == SkipCommentSpec(s, begin)
  {
    p := begin + 2;
    if s[begin + 1] == SLASH {
      while p + 1 < |s| && s[p] != NEWLINE && s[p] != RETURN
        invariant LineEnd(s, p) == LineEnd(s, begin + 2)
      {
        p := p + 1;
      }
      if p + 1 < |s| && s[p] == RETURN && s[p + 1] == NEWLINE { p := p + 1; }
      return p + 1;
    } else {
      while p + 2 < |s| && (s[p] != STAR || s[p + 1] != SLASH)
        invariant StarSlash(s, p) == StarSlash(s, begin + 2)
      {
        p := p + 1;
      }
      return p + 2;
    }
  }

  /** Inside a backslash-less-than escape: the position after the closing greater-than sign. */
  function AngleEnd(s: Str, p: nat): (r: nat)
    ensures r >= p
    decreases |s| - p
  {
    if p >= |s| then p
    else if s[p] == GT then p + 1
    else if CommentAt(s, p) then AngleEnd(s, SkipCommentSpec(s, p))
    else AngleEnd(s, p + 1)
  }

  function SkipBackslashSpec(s: Str, p: nat): (r: nat)
    requires p < |s|
    ensures r > p
  {
    if p + 1 >= |s| then p + 1
    else if s[p + 1] == LT then AngleEnd(s, p + 2)
    else if s[p + 1] == RETURN && p + 2 < |s| && s[p + 2] == NEWLINE then p + 3
    else p + 2
  }

  method SkipBackslash(s: Str, begin: nat) returns (p: nat)
    requires begin < |s| && s[begin] == BACKSLASH
    ensures p == SkipBackslashSpec(s, begin)
  {
    if begin + 1 >= |s| {
      return begin + 1;
    } else if s[begin + 1] == LT {
      p := begin + 2;
      while p < |s|
        invariant AngleEnd(s, p) == AngleEnd(s, begin + 2)
        decreases |s| - p
      {
        if s[p] == GT {
          return p + 1;
        } else if s[p] == SLASH && p + 1 < |s| && (s[p + 1] == SLASH || s[p + 1] == STAR) {
          p := SkipComment(s, p);
        } else {
          p := p + 1;
        }
      }
    } else if s[begin + 1] == RETURN && begin + 2 < |s| && s[begin + 2] == NEWLINE {
      return begin + 3;
    } else {
      return begin + 2;
    }
  }

  /** Inside double quotes: the position after the closing quote, or the end. */
  function QuoteEnd(s: Str, p: nat): (r: nat)
    ensures r >= p || r == |s|
    decreases |s| - p
  {
    if p >= |s| then |s|
    else if s[p] == BACKSLASH then QuoteEnd(s, SkipBackslashSpec(s, p))
    else if s[p] == DQUOTE then p + 1
    else QuoteEnd(s, p + 1)
  }

  method SkipDoubleQuote(s: Str, begin: nat) returns (p: nat)
    requires begin < |s| && s[begin] == DQUOTE
    ensures p == QuoteEnd(s, begin + 1)
  {
    p := begin + 1;
    while p < |s|
      invariant QuoteEnd(s, p) == QuoteEnd(s, begin + 1)
      decreases |s| - p
    {
      if s[p] == BACKSLASH {
        p := SkipBackslash(s, p);
      } else if s[p] == DQUOTE {
        return p + 1;
      } else {
        p := p + 1;
      }
    }
    return |s|;
  }

  function SingleQuoteEnd(s: Str, p: nat): (r: nat)
    ensures r >= p || r == |s|
    decreases |s| - p
  {
    if p >= |s| then |s| else if s[p] == SQUOTE then p + 1 else SingleQuoteEnd(s, p + 1)
  }

  method SkipSingleQuote(s: Str, begin: nat) returns (p: nat)
    requires begin < |s| && s[begin] == SQUOTE
    ensures p == SingleQuoteEnd(s, begin + 1)
  {
    p := begin + 1;
    while p < |s|
      invariant SingleQuoteEnd(s, p) == SingleQuoteEnd(s, begin + 1)
    {
      if s[p] == SQUOTE { return p + 1; }
      p := p + 1;
    }
    return |s|;
  }

  /** The first position that is neither white space nor in a comment. */
  function SpaceEnd(s: Str, p: nat): nat
    decreases |s| - p
  {
    if p >= |s| then p
    else if IsSpace(s[p]) then SpaceEnd(s, p + 1)
    else if CommentAt(s, p) then SpaceEnd(s, SkipCommentSpec(s, p))
    else p
  }

  method SkipCommentSpace(s: Str, begin: nat) returns (p: nat)
    ensures p == SpaceEnd(s, begin)
  {
    p := begin;
    while p < |s|
      invariant SpaceEnd(s, p) == SpaceEnd(s, begin)
      decreases |s| - p
    {
      if IsSpace(s[p]) {
      } else if s[p] == SLASH && p + 1 < |s| && (s[p + 1] == SLASH || s[p + 1] == STAR) {
        var q := SkipComment(s, p);
        p := q - 1;
      } else {
        return p;
      }
      p := p + 1;
    }
  }

  // ---------- removing comments ----------

  /** The variables of partial_uncomment's loop. */
  datatype Scan = Scan(p: nat, left: nat, right: nat, closed: bool, sa: Str)

  /** Where text that is not white space, comment or comma ends. */
  function TextEnd(s: Str, p: nat): (r: nat)
    requires p < |s|
    ensures r > p
  {
    if s[p] == SQUOTE then SingleQuoteEnd(s, p + 1)
    else if s[p] == DQUOTE then QuoteEnd(s, p + 1)
    else if s[p] == BACKSLASH && p + 1 < |s| && s[p + 1] == LT then SkipBackslashSpec(s, p)
    else p + 1
  }

  /** The loop from a given state to its end. */
  function ScanEnd(s: Str, comma: bool, v: Scan): Scan
    decreases |s| - v.p
  {
    if v.p >= |s| then v
    else if IsSpace(s[v.p]) then ScanEnd(s, comma, v.(p := v.p + 1))
    else if CommentAt(s, v.p) then ScanEnd(s, comma, v.(p := SkipCommentSpec(s, v.p), closed := true))
    else if s[v.p] == COMMA && comma then v
    else
      var w := if v.closed then Scan(v.p, v.p, v.right, false, v.sa + Substring(s, v.left, v.right) + [SPACE]) else v;
      var q := TextEnd(s, v.p);
      ScanEnd(s, comma, w.(p := q, right := q))
  }

  /** partial_uncomment: the text from i on up to an unquoted comma, if commas count, with its
      comments replaced by spaces; and the position of the comma or the end. */
  function UncommentSpec(s: Str, i: nat, comma: bool): (Str, nat) {
    var p := SpaceEnd(s, i);
    var v := ScanEnd(s, comma, Scan(p, p, p, false, []));
    (v.sa + Substring(s, v.left, v.right), v.p)
  }

  method PartialUncomment(s: Str, i: nat, comma: bool) returns (text: Str, commaPos: nat)
    ensures (text, commaPos) == UncommentSpec(s, i, comma)
  {
    var p := SkipCommentSpace(s, i);
    var sa: Str := [];
    var left: nat := p;
    var right: nat := p;
    var closed := false;
    ghost var start := Scan(p, p, p, false, []);
    while p < |s|
      invariant ScanEnd(s, comma, Scan(p, left, right, closed, sa)) == ScanEnd(s, comma, start)
      decreases |s| - p
    {
      if IsSpace(s[p]) {
        p := p + 1;
      } else if s[p] == SLASH && p + 1 < |s| && (s[p + 1] == SLASH || s[p + 1] == STAR) {
        p := SkipComment(s, p);
        closed := true;
      } else if s[p] == COMMA && comma {
        break;
      } else {
        if closed {
          sa := sa + Substring(s, left, right) + [SPACE];
          left := p;
          closed := false;
        }
        if s[p] == SQUOTE {
          p := SkipSingleQuote(s, p);
        } else if s[p] == DQUOTE {
          p := SkipDoubleQuote(s, p);
        } else if s[p] == BACKSLASH && p + 1 < |s| && s[p + 1] == LT {
          p := SkipBackslash(s, p);
        } else {
          p := p + 1;
        }
        right := p;
      }
    }
    commaPos := p;
    assert [] + Substring(s, left, right) == Substring(s, left, right);
    text := if sa == [] then Substring(s, left, right) else sa + Substring(s, left, right);
  }

  /** What holds of the loop's variables: text and pending substring start at a byte that is not
      white space, and there is a pending substring once any text was met. */
  predicate Trimmed(s: Str, v: Scan) {
    && v.left <= v.right <= v.p
    && (v.left == v.right ==> v.p == v.left && !v.closed && v.sa == [] && (v.p < |s| ==> !CommentAt(s, v.p)))
    && (if v.sa == [] then v.left < |s| ==> !IsSpace(s[v.left]) else !IsSpace(v.sa[0]))
  }

  lemma {:induction false} SpaceEndStops(s: Str, p: nat)
    ensures var q := SpaceEnd(s, p); q < |s| ==> !IsSpace(s[q]) && !CommentAt(s, q)
    decreases |s| - p
  {
    if p < |s| {
      if IsSpace(s[p]) {
        SpaceEndStops(s, p + 1);
      } else if CommentAt(s, p) {
        SpaceEndStops(s, SkipCommentSpec(s, p));
      }
    }
  }

  lemma {:induction false} ScanTrims(s: Str, comma: bool, v: Scan)
    requires Trimmed(s, v)
    ensures Trimmed(s, ScanEnd(s, comma, v))
    decreases |s| - v.p
  {
    hide TextEnd, SkipCommentSpec;
    if v.p >= |s| {
    } else if IsSpace(s[v.p]) {
      ScanTrims(s, comma, v.(p := v.p + 1));
    } else if CommentAt(s, v.p) {
      ScanTrims(s, comma, v.(p := SkipCommentSpec(s, v.p), closed := true));
    } else if s[v.p] == COMMA && comma {
    } else {
      var w := if v.closed then Scan(v.p, v.p, v.right, false, v.sa + Substring(s, v.left, v.right) + [SPACE]) else v;
      var q := TextEnd(s, v.p);
      assert v.closed ==> Substring(s, v.left, v.right)[0] == s[v.left];
      ScanTrims(s, comma, w.(p := q, right := q));
    }
  }

  /** All initial white space and comments are removed, whatever the string. */
  lemma {:induction false} UncommentTrims(s: Str, i: nat, comma: bool)
    ensures var text := UncommentSpec(s, i, comma).0; text != [] ==> !IsSpace(text[0])
  {
    hide ScanEnd, SpaceEnd, CommentAt;
    var p := SpaceEnd(s, i);
    SpaceEndStops(s, i);
    ScanTrims(s, comma, Scan(p, p, p, false, []));
  }

  // ---------- final space ----------

  /** Where the last text unit from p on starts: a byte, a quoted string or a backslash-less-than
      escape; u if there is none. */
  function LastUnit(s: Str, comma: bool, p: nat, u: int): int
    decreases |s| - p
  {
    if p >= |s| then u
    else if IsSpace(s[p]) then LastUnit(s, comma, p + 1, u)
    else if CommentAt(s, p) then LastUnit(s, comma, SkipCommentSpec(s, p), u)
    else if s[p] == COMMA && comma then u
    else LastUnit(s, comma, TextEnd(s, p), p)
  }

  /** From p on a comment stands before a text unit; after says whether one ends at p. */
  predicate Parted(s: Str, comma: bool, p: nat, after: bool)
    decreases |s| - p
  {
    if p >= |s| then false
    else if IsSpace(s[p]) then Parted(s, comma, p + 1, after)
    else if CommentAt(s, p) then Parted(s, comma, SkipCommentSpec(s, p), true)
    else if s[p] == COMMA && comma then false
    else after || Parted(s, comma, TextEnd(s, p), false)
  }

  /** The pending substring ends where the last unit ends, and what was put away ends in a space. */
  predicate EndsWithUnit(s: Str, v: Scan, u: int) {
    && -1 <= u < |s|
    && (if u == -1 then v.left == v.right && v.sa == [] && !v.closed
        else v.left <= u && !IsSpace(s[u]) && v.right == TextEnd(s, u))
    && (v.sa != [] ==> v.sa[|v.sa| - 1] == SPACE)
  }

  lemma {:induction false} ScanEndsWithUnit(s: Str, comma: bool, v: Scan, u: int)
    requires EndsWithUnit(s, v, u) && v.left <= v.p && (v.closed ==> u >= 0)
    requires u == -1 ==> v.p == v.left && (v.p < |s| ==> !IsSpace(s[v.p]) && !CommentAt(s, v.p))
    ensures var w := ScanEnd(s, comma, v);
            && EndsWithUnit(s, w, LastUnit(s, comma, v.p, u))
            && (w.sa != [] <==> v.sa != [] || Parted(s, comma, v.p, v.closed))
    decreases |s| - v.p
  {
    hide TextEnd, SkipCommentSpec;
    if v.p >= |s| {
    } else if IsSpace(s[v.p]) {
      ScanEndsWithUnit(s, comma, v.(p := v.p + 1), u);
    } else if CommentAt(s, v.p) {
      ScanEndsWithUnit(s, comma, v.(p := SkipCommentSpec(s, v.p), closed := true), u);
    } else if s[v.p] == COMMA && comma {
    } else {
      var w := if v.closed then Scan(v.p, v.p, v.right, false, v.sa + Substring(s, v.left, v.right) + [SPACE]) else v;
      var q := TextEnd(s, v.p);
      ScanEndsWithUnit(s, comma, w.(p := q, right := q), v.p);
    }
  }

  lemma {:induction false} SingleQuoteCloses(s: Str, p: nat)
    requires p <= |s|
    ensures var q := SingleQuoteEnd(s, p); q <= |s| && (q < |s| ==> s[q - 1] == SQUOTE)
    decreases |s| - p
  {
    if p < |s| && s[p] != SQUOTE { SingleQuoteCloses(s, p + 1); }
  }

  lemma {:induction false} QuoteCloses(s: Str, p: nat)
    ensures var q := QuoteEnd(s, p); q <= |s| && (q < |s| ==> q > 0 && s[q - 1] == DQUOTE)
    decreases |s| - p
  {
    if p < |s| {
      if s[p] == BACKSLASH {
        QuoteCloses(s, SkipBackslashSpec(s, p));
      } else if s[p] != DQUOTE {
        QuoteCloses(s, p + 1);
      }
    }
  }

  lemma {:induction false} AngleCloses(s: Str, p: nat)
    ensures var q := AngleEnd(s, p); q < |s| ==> q > 0 && s[q - 1] == GT
    decreases |s| - p
  {
    if p < |s| && s[p] != GT {
      if CommentAt(s, p) {
        AngleCloses(s, SkipCommentSpec(s, p));
      } else {
        AngleCloses(s, p + 1);
      }
    }
  }

  /** Quotes and backslash-less-than escapes open a unit that can run on to the end. */
  predicate Opens(s: Str, p: nat)
    requires p < |s|
  {
    s[p] == SQUOTE || s[p] == DQUOTE || (s[p] == BACKSLASH && p + 1 < |s| && s[p + 1] == LT)
  }

  /** A unit that ends before the string does ends in a byte that is not white space; only an
      unterminated quote or escape can end in one. */
  lemma {:induction false} UnitEnds(s: Str, p: nat)
    requires p < |s| && !IsSpace(s[p])
    ensures var q := TextEnd(s, p);
            && (q < |s| ==> !IsSpace(s[q - 1]))
            && (q >= |s| && (q > |s| || IsSpace(s[q - 1])) ==> Opens(s, p))
  {
    hide SingleQuoteEnd, QuoteEnd, AngleEnd;
    SingleQuoteCloses(s, p + 1);
    QuoteCloses(s, p + 1);
    AngleCloses(s, p + 2);
  }

  /** All final white space is removed, unless the last unit of the text is a quote or an escape
      that is not terminated: exactly if it runs to the end of the string in white space, or past
      it in a comment, so that the space for an earlier comment comes last. */
  lemma {:induction false} UncommentTrimsEnd(s: Str, i: nat, comma: bool)
    ensures var text, p := UncommentSpec(s, i, comma).0, SpaceEnd(s, i);
            var u := LastUnit(s, comma, p, -1);
            && -1 <= u < |s|
            && ((text != [] && IsSpace(text[|text| - 1])) <==>
                  u >= 0 && Opens(s, u) &&
                  (if TextEnd(s, u) > |s| then Parted(s, comma, p, false)
                   else TextEnd(s, u) == |s| && IsSpace(s[|s| - 1])))
  {
    hide ScanEnd, SpaceEnd, CommentAt, LastUnit, Parted, TextEnd, Opens;
    var p := SpaceEnd(s, i);
    SpaceEndStops(s, i);
    ScanEndsWithUnit(s, comma, Scan(p, p, p, false, []), -1);
    var u := LastUnit(s, comma, p, -1);
    if u >= 0 { UnitEnds(s, u); }
  }

  /** An unterminated double quote, a letter and a space: the space stays. */
  lemma {:induction false} FinalSpaceStays()
    ensures UncommentSpec([DQUOTE, 97, SPACE], 0, false).0 == [DQUOTE, 97, SPACE]
  {
    var s: Str := [DQUOTE, 97, SPACE];
    assert SpaceEnd(s, 0) == 0;
    assert QuoteEnd(s, 3) == 3 && QuoteEnd(s, 2) == 3 && QuoteEnd(s, 1) == 3;
    assert TextEnd(s, 0) == 3;
    assert ScanEnd(s, false, Scan(0, 0, 0, false, [])) == Scan(3, 0, 3, false, []);
  }

  /** A letter, a comment and an escape that opens with a comment which runs past the end: only the
      letter is left and the space for the first comment. */
  lemma {:induction false} CommentSpaceStays()
    ensures UncommentSpec([97, SLASH, STAR, STAR, SLASH, BACKSLASH, LT, SLASH, STAR], 0, false).0 == [97, SPACE]
  {
    var s: Str := [97, SLASH, STAR, STAR, SLASH, BACKSLASH, LT, SLASH, STAR];
    assert SpaceEnd(s, 0) == 0;
    assert SkipCommentSpec(s, 1) == 5 && SkipCommentSpec(s, 7) == 11;
    assert AngleEnd(s, 11) == 11 && AngleEnd(s, 7) == 11;
    assert TextEnd(s, 0) == 1 && TextEnd(s, 5) == 11;
    assert ScanEnd(s, false, Scan(11, 5, 11, false, [97, SPACE])) == Scan(11, 5, 11, false, [97, SPACE]);
    assert Substring(s, 0, 1) == [97];
    assert ScanEnd(s, false, Scan(5, 0, 1, true, [])) == Scan(11, 5, 11, false, [97, SPACE]);
    assert ScanEnd(s, false, Scan(1, 0, 1, false, [])) == Scan(11, 5, 11, false, [97, SPACE]);
  }

  // ---------- backslash escapes ----------

  predicate IsOctal(b: Byte) { 48 <= b <= 55 }

  /** The value of a hexadecimal digit, or 16. */
  function HexValue(b: Byte): nat {
    if 48 <= b <= 57 then b - 48
    else if 65 <= b <= 70 then b - 65 + 10
    else if 97 <= b <= 102 then b - 97 + 10
    else 16
  }

  /** A cast to char. */
  function Char(c: nat): Byte { c % 256 }

  /** Up to 3 - d octal digits at p, after the value c: the position after them and the value. */
  function Octal(s: Str, p: nat, d: nat, c: nat): (r: (nat, nat))
    requires p <= |s|
    ensures p <= r.0 <= |s|
    decreases |s| - p
  {
    if p < |s| && IsOctal(s[p]) && d < 3 then Octal(s, p + 1, d + 1, c * 8 + (s[p] - 48)) else (p, c)
  }

  /** The run of hexadecimal digits at p, after the value c. */
  function Hex(s: Str, p: nat, c: nat): (r: (nat, nat))
    requires p <= |s|
    ensures p <= r.0 <= |s|
    decreases |s| - p
  {
    if p < |s| && HexValue(s[p]) < 16 then Hex(s, p + 1, c * 16 + HexValue(s[p])) else (p, c)
  }

  /** The inside of a backslash-less-than escape from p on, with d digits of value c pending:
      the position after it and the bytes it stands for. */
  function Angle(s: Str, p: nat, c: nat, d: nat): (r: (nat, Str))
    ensures r.0 <= |s| && (p <= |s| ==> p <= r.0)
    decreases |s| - p
  {
    if p >= |s| then (|s|, [])
    else if s[p] == GT then (p + 1, [])
    else if HexValue(s[p]) < 16 then
      var v := c * 16 + HexValue(s[p]);
      if d + 1 == 2 then
        var rest := Angle(s, p + 1, 0, 0);
        (rest.0, [Char(v)] + rest.1)
      else Angle(s, p + 1, v, d + 1)
    else if CommentAt(s, p) then Angle(s, SkipCommentSpec(s, p), c, d)
    else Angle(s, p + 1, c, d)
  }

  /** The letters of the C escapes, or 256. */
  function CEscape(b: Byte): nat {
    if b == 97 then 7 else if b == 98 then 8 else if b == 102 then 12 else if b == 110 then NEWLINE
    else if b == 114 then RETURN else if b == 116 then TAB else if b == 118 then 11 else 256
  }

  /** cp_process_backslash: the position after the escape at p and the bytes it stands for. */
  function Backslash(s: Str, p: nat): (r: (nat, Str))
    requires p < |s|
    ensures p < r.0 <= |s|
  {
    if p + 1 == |s| then (|s|, [BACKSLASH])
    else
      var b := s[p + 1];
      if b == RETURN then (if p + 2 < |s| && s[p + 2] == NEWLINE then p + 3 else p + 2, [])
      else if b == NEWLINE then (p + 2, [])
      else if CEscape(b) < 256 then (p + 2, [CEscape(b)])
      else if IsOctal(b) then var r := Octal(s, p + 1, 0, 0); assert r == Octal(s, p + 2, 1, b - 48); (r.0, [Char(r.1)])
      else if b == 120 then var r := Hex(s, p + 2, 0); (r.0, [Char(r.1)])
      else if b == LT then Angle(s, p + 2, 0, 0)
      else (p + 2, [b])
  }

  method ProcessBackslash(s: Str, begin: nat) returns (p: nat, out: Str)
    requires begin < |s| && s[begin] == BACKSLASH
    ensures (p, out) == Backslash(s, begin)
  {
    if begin == |s| - 1 { return |s|, [BACKSLASH]; }
    var b := s[begin + 1];
    if b == RETURN {
      return if begin + 2 < |s| && s[begin + 2] == NEWLINE then begin + 3 else begin + 2, [];
    } else if b == NEWLINE {
      return begin + 2, [];
    } else if CEscape(b) < 256 {
      return begin + 2, [CEscape(b)];
    } else if IsOctal(b) {
      p, out := ProcessOctal(s, begin + 1);
    } else if b == 120 {
      p, out := ProcessHex(s, begin + 2);
    } else if b == LT {
      p, out := ProcessAngle(s, begin + 2);
    } else {
      return begin + 2, [b];
    }
  }

  method ProcessOctal(s: Str, begin: nat) returns (p: nat, out: Str)
    requires begin <= |s|
    ensures p == Octal(s, begin, 0, 0).0 && out == [Char(Octal(s, begin, 0, 0).1)]
  {
    var c: nat := 0;
    var d: nat := 0;
    p := begin;
    while p < |s| && IsOctal(s[p]) && d < 3
      invariant p <= |s|
      invariant Octal(s, p, d, c) == Octal(s, begin, 0, 0)
    {
      c := c * 8 + (s[p] - 48);
      p := p + 1;
      d := d + 1;
    }
    out := [Char(c)];
  }

  method ProcessHex(s: Str, begin: nat) returns (p: nat, out: Str)
    requires begin <= |s|
    ensures p == Hex(s, begin, 0).0 && out == [Char(Hex(s, begin, 0).1)]
  {
    var c: nat := 0;
    p := begin;
    while p < |s| && HexValue(s[p]) < 16
      invariant p <= |s|
      invariant Hex(s, p, c) == Hex(s, begin, 0)
    {
      c := c * 16 + HexValue(s[p]);
      p := p + 1;
    }
    out := [Char(c)];
  }

  lemma {:induction false} Append(a: Str, b: Str, c: Str)
    ensures a + (b + c) == a + b + c
  {
  }

  method ProcessAngle(s: Str, begin: nat) returns (p: nat, out: Str)
    requires begin <= |s|
    ensures (p, out) == Angle(s, begin, 0, 0)
  {
    var c: nat := 0;
    var d: nat := 0;
    p := begin;
    out := [];
    ghost var whole := Angle(s, begin, 0, 0);
    assert [] + whole.1 == whole.1;
    while p < |s|
      invariant whole.0 == Angle(s, p, c, d).0 && whole.1 == out + Angle(s, p, c, d).1
      decreases |s| - p
    {
      if s[p] == GT {
        assert out + [] == out;
        return p + 1, out;
      } else if HexValue(s[p]) < 16 {
        c := c * 16 + HexValue(s[p]);
        d := d + 1;
        if d == 2 {
          Append(out, [Char(c)], Angle(s, p + 1, 0, 0).1);
          out := out + [Char(c)];
          c, d := 0, 0;
        }
        p := p + 1;
      } else if s[p] == SLASH && p + 1 < |s| && (s[p + 1] == SLASH || s[p + 1] == STAR) {
        p := SkipComment(s, p);
      } else {
        p := p + 1;
      }
    }
    assert out + [] == out;
    p := |s|;
  }

  // ---------- unquoting ----------

  /** cp_unquote's loop on the uncommented text x from p on, in quote state q (0, or the quote). */
  function Decode(x: Str, p: nat, q: Byte): Str
    decreases |x| - p
  {
    if p >= |x| then []
    else if (x[p] == DQUOTE || x[p] == SQUOTE) && q == 0 then Decode(x, p + 1, x[p])
    else if (x[p] == DQUOTE || x[p] == SQUOTE) && q == x[p] then Decode(x, p + 1, 0)
    else if x[p] == BACKSLASH && p + 1 < |x| && (q == DQUOTE || (q == 0 && x[p + 1] == LT)) then
      Backslash(x, p).1 + Decode(x, Backslash(x, p).0, q)
    else [x[p]] + Decode(x, p + 1, q)
  }

  function UnquoteSpec(s: Str): Str { Decode(UncommentSpec(s, 0, false).0, 0, 0) }

  method Unquote(s: Str) returns (r: Str)
    ensures r == UnquoteSpec(s)
  {
    var x, end := PartialUncomment(s, 0, false);
    r := RemoveQuotes(x);
  }

  method RemoveQuotes(x: Str) returns (r: Str)
    ensures r == Decode(x, 0, 0)
  {
    var sa: Str := [];
    var start: nat := 0;
    var p: nat := 0;
    var q: Byte := 0;
    ghost var done: Str := [];
    assert done + Decode(x, 0, 0) == Decode(x, 0, 0);
    while p < |x|
      invariant start <= p <= |x|
      invariant start == 0 ==> sa == []
      invariant done == sa + x[start..p]
      invariant done + Decode(x, p, q) == Decode(x, 0, 0)
      decreases |x| - p
    {
      ghost var was, from := done, p;
      if (x[p] == DQUOTE || x[p] == SQUOTE) && (q == 0 || q == x[p]) {
        sa := sa + x[start..p];
        start := p + 1;
        q := if q == 0 then x[p] else 0;
        p := p + 1;
        assert x[start..p] == [] && sa + [] == sa;
      } else if x[p] == BACKSLASH && p + 1 < |x| && (q == DQUOTE || (q == 0 && x[p + 1] == LT)) {
        sa := sa + x[start..p];
        var out;
        start, out := ProcessBackslash(x, p);
        sa := sa + out;
        p := start;
        done := done + out;
        Append(was, out, Decode(x, p, q));
        assert x[start..p] == [] && sa + [] == sa;
      } else {
        Append(sa, x[start..p], [x[p]]);
        assert x[start..p + 1] == x[start..p] + [x[p]];
        done := done + [x[p]];
        p := p + 1;
        Append(was, [x[from]], Decode(x, p, q));
      }
    }
    assert done + [] == done;
    assert start == 0 ==> [] + x[0..|x|] == x;
    if start == 0 { return x; }
    return sa + x[start..p];
  }

  // ---------- quoting ----------

  /** How cp_quote writes one byte. */
  function Escape(b: Byte, newlines: bool): Str {
    if b == BACKSLASH || b == DQUOTE || b == DOLLAR then [BACKSLASH, b]
    else if b == TAB then [BACKSLASH, 116]
    else if b == RETURN then [BACKSLASH, 114]
    else if b == NEWLINE then (if newlines then [b] else [BACKSLASH, 110])
    else if b < 32 || b >= 127 then [BACKSLASH, ZERO + b / 64, ZERO + b / 8 % 8, ZERO + b % 8]
    else [b]
  }

  function Escaped(s: Str, newlines: bool): Str {
    if s == [] then [] else Escape(s[0], newlines) + Escaped(s[1..], newlines)
  }

  /** cp_quote: the bytes escaped, between double quotes. */
  function QuoteSpec(s: Str, newlines: bool): Str { [DQUOTE] + Escaped(s, newlines) + [DQUOTE] }

  method Quote(s: Str, newlines: bool) returns (r: Str)
    ensures r == QuoteSpec(s, newlines)
  {
    hide Escape, Escaped;
    NothingEscaped(newlines);
    if s == [] { return [DQUOTE, DQUOTE]; }
    var sa: Str := [DQUOTE];
    var start, p := 0, 0;
    ghost var done := sa;
    assert s[0..] == s;
    while p < |s|
      invariant 0 <= start <= p <= |s|
      invariant done == sa + s[start..p]
      invariant done + Escaped(s[p..], newlines) == [DQUOTE] + Escaped(s, newlines)
    {
      var b := s[p];
      EscapedNext(s, p, newlines);
      Append(done, Escape(b, newlines), Escaped(s[p + 1..], newlines));
      var escape := EscapeOf(b, newlines);
      if escape != [] {
        sa := sa + s[start..p] + escape;
        start := p + 1;
        assert s[start..p + 1] == [] && sa + [] == sa;
      } else {
        Append(sa, s[start..p], [b]);
        assert s[start..p + 1] == s[start..p] + [b];
      }
      done := done + Escape(b, newlines);
      p := p + 1;
    }
    assert s[p..] == [] && done + [] == done;
    return sa + s[start..p] + [DQUOTE];
  }

  lemma {:induction false} EscapedNext(s: Str, p: nat, newlines: bool)
    requires p < |s|
    ensures Escaped(s[p..], newlines) == Escape(s[p], newlines) + Escaped(s[p + 1..], newlines)
  {
    assert s[p..][1..] == s[p + 1..] && s[p..][0] == s[p];
  }

  lemma {:induction false} NothingEscaped(newlines: bool)
    ensures Escaped([], newlines) == []
  {
  }

  /** The switch of cp_quote: the escape of a byte, or nothing where the byte stays as it is. */
  method EscapeOf(b: Byte, newlines: bool) returns (r: Str)
    ensures r == [] <==> Escape(b, newlines) == [b]
    ensures r != [] ==> r == Escape(b, newlines)
  {
    if b == BACKSLASH || b == DQUOTE || b == DOLLAR {
      r := [BACKSLASH, b];
    } else if b == TAB {
      r := [BACKSLASH, 116];
    } else if b == RETURN {
      r := [BACKSLASH, 114];
    } else if b == NEWLINE {
      r := if newlines then [] else [BACKSLASH, 110];
    } else if b < 32 || b >= 127 {
      r := [BACKSLASH, ZERO + b / 64, ZERO + b / 8 % 8, ZERO + b % 8];
    } else {
      r := [];
    }
  }

  /** The bytes u stand at position p of t. */
  predicate At(t: Str, p: nat, u: Str) { p + |u| <= |t| && t[p..p + |u|] == u }

  lemma {:induction false} AtCut(t: Str, p: nat, u: Str, v: Str)
    requires At(t, p, u + v)
    ensures At(t, p, u) && At(t, p + |u|, v)
  {
    assert t[p..p + |u|] == t[p..p + |u + v|][..|u|] == u;
    assert t[p + |u|..p + |u| + |v|] == t[p..p + |u + v|][|u|..] == v;
  }

  lemma {:induction false} AtByte(t: Str, p: nat, u: Str, i: nat)
    requires At(t, p, u) && i < |u|
    ensures t[p + i] == u[i]
  {
    assert t[p..p + |u|][i] == t[p + i];
  }

  /** Skipping a double-quoted string passes over one escaped byte at a time. */
  lemma {:induction false} SkipsEscape(t: Str, p: nat, b: Byte, newlines: bool)
    requires At(t, p, Escape(b, newlines)) && p + |Escape(b, newlines)| < |t|
    ensures QuoteEnd(t, p) == QuoteEnd(t, p + |Escape(b, newlines)|)
  {
    var u := Escape(b, newlines);
    AtByte(t, p, u, 0);
    if |u| > 1 {
      AtByte(t, p, u, 1);
      assert SkipBackslashSpec(t, p) == p + 2;
    }
    if |u| > 2 {
      AtByte(t, p, u, 2);
      AtByte(t, p, u, 3);
      assert QuoteEnd(t, p + 2) == QuoteEnd(t, p + 3);
    }
  }

  lemma {:induction false} OctalOfByte(b: Byte)
    ensures b / 64 * 64 + b / 8 % 8 * 8 + b % 8 == b && b / 64 < 4
  {
  }

  lemma {:induction false} OctalEscape(t: Str, p: nat, b: Byte)
    requires p + 4 <= |t| && t[p] == BACKSLASH
    requires t[p + 1] == ZERO + b / 64 && t[p + 2] == ZERO + b / 8 % 8 && t[p + 3] == ZERO + b % 8
    ensures Backslash(t, p) == (p + 4, [b])
  {
    OctalOfByte(b);
    var c0, c1: nat := b / 64, b / 64 * 8 + b / 8 % 8;
    assert Octal(t, p + 1, 0, 0) == Octal(t, p + 2, 1, c0) == Octal(t, p + 3, 2, c1) == Octal(t, p + 4, 3, b);
  }

  lemma {:induction false} DecodeStep(t: Str, p: nat, n: nat, b: Byte)
    requires p < |t| && n > p
    requires if t[p] == BACKSLASH then p + 1 < |t| && Backslash(t, p) == (n, [b])
             else t[p] == b && n == p + 1 && b != DQUOTE
    ensures Decode(t, p, DQUOTE) == [b] + Decode(t, n, DQUOTE)
  {
    hide Backslash;
  }

  /** Unquoting undoes one escaped byte at a time. */
  lemma {:induction false} DecodesEscape(t: Str, p: nat, b: Byte, newlines: bool)
    requires At(t, p, Escape(b, newlines)) && p + |Escape(b, newlines)| < |t|
    ensures Decode(t, p, DQUOTE) == [b] + Decode(t, p + |Escape(b, newlines)|, DQUOTE)
  {
    hide Decode;
    var u := Escape(b, newlines);
    AtByte(t, p, u, 0);
    if |u| > 1 { AtByte(t, p, u, 1); }
    if |u| > 2 {
      AtByte(t, p, u, 2);
      AtByte(t, p, u, 3);
      OctalEscape(t, p, b);
    } else if |u| == 2 {
      assert Backslash(t, p) == (p + 2, [b]);
    }
    DecodeStep(t, p, p + |u|, b);
  }

  lemma {:induction false} EscapedCut(t: Str, p: nat, s: Str, newlines: bool)
    requires s != [] && At(t, p, Escaped(s, newlines) + [DQUOTE])
    ensures At(t, p, Escape(s[0], newlines)) && p + |Escape(s[0], newlines)| < |t|
    ensures At(t, p + |Escape(s[0], newlines)|, Escaped(s[1..], newlines) + [DQUOTE])
  {
    hide Escape;
    var u, v := Escape(s[0], newlines), Escaped(s[1..], newlines) + [DQUOTE];
    assert Escaped(s, newlines) + [DQUOTE] == u + v;
    AtCut(t, p, u, v);
  }

  /** A quoted string inside a longer text is skipped exactly. */
  lemma {:induction false} SkipsQuoted(t: Str, p: nat, s: Str, newlines: bool)
    requires At(t, p, Escaped(s, newlines) + [DQUOTE])
    ensures QuoteEnd(t, p) == p + |Escaped(s, newlines)| + 1
    decreases |s|
  {
    hide QuoteEnd, Escape, At;
    if s == [] {
      assert [] + [DQUOTE] == [DQUOTE];
      SkipsClosing(t, p);
    } else {
      EscapedCut(t, p, s, newlines);
      SkipsEscape(t, p, s[0], newlines);
      SkipsQuoted(t, p + |Escape(s[0], newlines)|, s[1..], newlines);
    }
  }

  lemma {:induction false} SkipsClosing(t: Str, p: nat)
    requires At(t, p, [DQUOTE])
    ensures QuoteEnd(t, p) == p + 1
  {
    AtByte(t, p, [DQUOTE], 0);
  }

  lemma {:induction false} FirstAndRest(s: Str, tail: Str)
    requires s != []
    ensures s + tail == [s[0]] + (s[1..] + tail)
  {
  }

  lemma {:induction false} DecodesClosing(t: Str, p: nat)
    requires At(t, p, [DQUOTE])
    ensures Decode(t, p, DQUOTE) == Decode(t, p + 1, 0)
  {
    AtByte(t, p, [DQUOTE], 0);
  }

  lemma {:induction false} DecodesQuoted(t: Str, p: nat, s: Str, newlines: bool)
    requires At(t, p, Escaped(s, newlines) + [DQUOTE])
    ensures Decode(t, p, DQUOTE) == s + Decode(t, p + |Escaped(s, newlines)| + 1, 0)
    decreases |s|
  {
    hide Decode, Escape, At;
    if s == [] {
      assert [] + [DQUOTE] == [DQUOTE] && [] + Decode(t, p + 1, 0) == Decode(t, p + 1, 0);
      DecodesClosing(t, p);
    } else {
      var u := Escape(s[0], newlines);
      EscapedCut(t, p, s, newlines);
      DecodesEscape(t, p, s[0], newlines);
      DecodesQuoted(t, p + |u|, s[1..], newlines);
      FirstAndRest(s, Decode(t, p + |Escaped(s, newlines)| + 1, 0));
    }
  }

  /** Uncommenting from p on, where white space may precede a quoted string that ends at a comma
      (if commas count) or at the end, returns the quoted string unchanged. */
  lemma {:induction false} UncommentQuoted(t: Str, p: nat, left: nat, s: Str, newlines: bool, comma: bool)
    requires SpaceEnd(t, p) == left && At(t, left, QuoteSpec(s, newlines))
    requires left + |QuoteSpec(s, newlines)| == |t| || (comma && t[left + |QuoteSpec(s, newlines)|] == COMMA)
    ensures UncommentSpec(t, p, comma) == (QuoteSpec(s, newlines), left + |QuoteSpec(s, newlines)|)
  {
    hide ScanEnd, Escaped, QuoteEnd, SpaceEnd, TextEnd;
    var q := QuoteSpec(s, newlines);
    assert q == [DQUOTE] + (Escaped(s, newlines) + [DQUOTE]);
    AtCut(t, left, [DQUOTE], Escaped(s, newlines) + [DQUOTE]);
    AtByte(t, left, [DQUOTE], 0);
    SkipsQuoted(t, left + 1, s, newlines);
    ScansQuoted(t, left, left + |q|, comma);
    assert [] + t[left..left + |q|] == q;
  }

  lemma {:induction false} ScansQuoted(t: Str, left: nat, right: nat, comma: bool)
    requires left < right <= |t| && t[left] == DQUOTE && QuoteEnd(t, left + 1) == right
    requires right == |t| || (comma && t[right] == COMMA)
    ensures ScanEnd(t, comma, Scan(left, left, left, false, [])) == Scan(right, left, right, false, [])
  {
    assert TextEnd(t, left) == right;
    assert ScanEnd(t, comma, Scan(right, left, right, false, [])) == Scan(right, left, right, false, []);
  }

  /** cp_quote yields a string in double quotes that cp_uncomment keeps and cp_unquote turns
      back into the original, whatever the bytes and in both newline modes. */
  lemma {:induction false} UnquoteInvertsQuote(s: Str, newlines: bool)
    ensures UnquoteSpec(QuoteSpec(s, newlines)) == s
    ensures UncommentSpec(QuoteSpec(s, newlines), 0, false).0 == QuoteSpec(s, newlines)
  {
    hide UncommentSpec;
    var q := QuoteSpec(s, newlines);
    assert At(q, 0, q);
    UncommentQuoted(q, 0, 0, s, newlines, false);
    AtCut(q, 0, [DQUOTE], Escaped(s, newlines) + [DQUOTE]);
    DecodesQuoted(q, 1, s, newlines);
    assert Decode(q, 0, 0) == s + [];
  }

  // ---------- argument lists ----------

  lemma {:induction false} SpaceEndAfter(s: Str, p: nat)
    ensures SpaceEnd(s, p) >= p
    decreases |s| - p
  {
    if p < |s| {
      if IsSpace(s[p]) { SpaceEndAfter(s, p + 1); }
      else if CommentAt(s, p) { SpaceEndAfter(s, SkipCommentSpec(s, p)); }
    }
  }

  lemma {:induction false} ScanEndAfter(s: Str, comma: bool, v: Scan)
    ensures ScanEnd(s, comma, v).p >= v.p
    decreases |s| - v.p
  {
    if v.p >= |s| {
    } else if IsSpace(s[v.p]) {
      ScanEndAfter(s, comma, v.(p := v.p + 1));
    } else if CommentAt(s, v.p) {
      ScanEndAfter(s, comma, v.(p := SkipCommentSpec(s, v.p), closed := true));
    } else if s[v.p] == COMMA && comma {
    } else {
      var w := if v.closed then Scan(v.p, v.p, v.right, false, v.sa + Substring(s, v.left, v.right) + [SPACE]) else v;
      var q := TextEnd(s, v.p);
      ScanEndAfter(s, comma, w.(p := q, right := q));
    }
  }

  lemma {:induction false} UncommentAfter(s: Str, i: nat, comma: bool)
    ensures UncommentSpec(s, i, comma).1 >= i
  {
    var p := SpaceEnd(s, i);
    SpaceEndAfter(s, i);
    ScanEndAfter(s, comma, Scan(p, p, p, false, []));
  }

  /** cp_argvec from position p on. */
  function Args(s: Str, p: nat): seq<Str>
    decreases |s| - p
  {
    if p >= |s| then []
    else
      var u := UncommentSpec(s, p, true);
      UncommentAfter(s, p, true);
      if u.0 != [] || u.1 < |s| then [u.0] + Args(s, u.1 + 1) else Args(s, u.1 + 1)
  }

  method ArgVec(s: Str) returns (args: seq<Str>)
    ensures args == Args(s, 0)
  {
    hide UncommentSpec;
    args := [];
    if s == [] { return; }
    var p: nat := 0;
    assert args + Args(s, 0) == Args(s, 0);
    while p < |s|
      invariant args + Args(s, p) == Args(s, 0)
      decreases |s| - p
    {
      var arg, comma := NextArg(s, p);
      if arg != [] || comma < |s| {
        assert args + ([arg] + Args(s, comma + 1)) == args + [arg] + Args(s, comma + 1);
        args := args + [arg];
      }
      p := comma + 1;
    }
    assert args + [] == args;
  }

  method NextArg(s: Str, p: nat) returns (arg: Str, comma: nat)
    requires p < |s|
    ensures comma >= p
    ensures Args(s, p) == if arg != [] || comma < |s| then [arg] + Args(s, comma + 1) else Args(s, comma + 1)
  {
    hide UncommentSpec;
    UncommentAfter(s, p, true);
    arg, comma := PartialUncomment(s, p, true);
  }

  /** The arguments joined by a comma and a space. */
  function Joined(args: seq<Str>): Str {
    if args == [] then [] else if |args| == 1 then args[0] else args[0] + ([COMMA, SPACE] + Joined(args[1..]))
  }

  function Tails(args: seq<Str>): Str {
    if args == [] then [] else [COMMA, SPACE] + args[0] + Tails(args[1..])
  }

  lemma {:induction false} JoinedIsTails(args: seq<Str>)
    requires args != []
    ensures Joined(args) == args[0] + Tails(args[1..])
    decreases |args|
  {
    if |args| > 1 { JoinedIsTails(args[1..]); }
  }

  method UnArgVec(args: seq<Str>) returns (s: Str)
    ensures s == Joined(args)
  {
    if |args| == 0 { return []; }
    JoinedIsTails(args);
    if |args| == 1 { return args[0]; }
    s := args[0];
    for i := 1 to |args|
      invariant s + Tails(args[i..]) == Joined(args)
    {
      assert args[i..][1..] == args[i + 1..];
      s := s + [COMMA, SPACE] + args[i];
    }
  }

  function QuoteAll(v: seq<Str>, newlines: bool): seq<Str> {
    if v == [] then [] else [QuoteSpec(v[0], newlines)] + QuoteAll(v[1..], newlines)
  }

  lemma {:induction false} QuoteNonempty(s: Str, newlines: bool)
    ensures |QuoteSpec(s, newlines)| > 1
  {
  }

  lemma {:induction false} FirstArg(t: Str, p: nat, left: nat, s: Str, newlines: bool)
    requires p < |t| && SpaceEnd(t, p) == left && At(t, left, QuoteSpec(s, newlines))
    requires left + |QuoteSpec(s, newlines)| == |t| || t[left + |QuoteSpec(s, newlines)|] == COMMA
    ensures Args(t, p) == [QuoteSpec(s, newlines)] + Args(t, left + |QuoteSpec(s, newlines)| + 1)
  {
    hide UncommentSpec, At, QuoteSpec, SpaceEnd;
    UncommentQuoted(t, p, left, s, newlines, true);
    assert |QuoteSpec(s, newlines)| > 0 by { QuoteNonempty(s, newlines); }
  }

  lemma {:induction false} JoinedCut(v: seq<Str>, newlines: bool)
    requires |v| > 1
    ensures Joined(QuoteAll(v, newlines)) ==
            QuoteSpec(v[0], newlines) + ([COMMA, SPACE] + Joined(QuoteAll(v[1..], newlines)))
  {
    assert QuoteAll(v, newlines)[1..] == QuoteAll(v[1..], newlines);
  }

  /** A list of quoted strings that stands in t at left, after white space from p on, and reaches
      to the end of t, is read back argument by argument. */
  lemma {:induction false} ArgsOfJoined(t: Str, p: nat, left: nat, v: seq<Str>, newlines: bool)
    requires v != [] && p < |t| && SpaceEnd(t, p) == left
    requires At(t, left, Joined(QuoteAll(v, newlines))) && left + |Joined(QuoteAll(v, newlines))| == |t|
    ensures Args(t, p) == QuoteAll(v, newlines)
    decreases |v|
  {
    hide UncommentSpec, At, QuoteSpec;
    if |v| == 1 {
      FirstArg(t, p, left, v[0], newlines);
    } else {
      var q, tail := QuoteSpec(v[0], newlines), Joined(QuoteAll(v[1..], newlines));
      var end := left + |q|;
      JoinedCut(v, newlines);
      AfterFirst(t, left, q, tail);
      FirstArg(t, p, left, v[0], newlines);
      JoinedStartsQuoted(v[1..], newlines);
      AtByte(t, end + 2, tail, 0);
      assert SpaceEnd(t, end + 1) == SpaceEnd(t, end + 2) == end + 2;
      ArgsOfJoined(t, end + 1, end + 2, v[1..], newlines);
    }
  }

  lemma {:induction false} AfterFirst(t: Str, left: nat, q: Str, tail: Str)
    requires At(t, left, q + ([COMMA, SPACE] + tail))
    ensures At(t, left, q) && left + |q| + 2 + |tail| <= |t|
    ensures t[left + |q|] == COMMA && t[left + |q| + 1] == SPACE && At(t, left + |q| + 2, tail)
  {
    AtCut(t, left, q, [COMMA, SPACE] + tail);
    AtCut(t, left + |q|, [COMMA, SPACE], tail);
    AtByte(t, left + |q|, [COMMA, SPACE], 0);
    AtByte(t, left + |q|, [COMMA, SPACE], 1);
  }

  lemma {:induction false} JoinedStartsQuoted(v: seq<Str>, newlines: bool)
    requires v != []
    ensures |Joined(QuoteAll(v, newlines))| > 0 && Joined(QuoteAll(v, newlines))[0] == DQUOTE
  {
    JoinedIsTails(QuoteAll(v, newlines));
  }

  /** cp_argvec undoes cp_unargvec on every list of quoted strings, even where they contain
      commas, quotes, comment openers and white space. */
  lemma {:induction false} ArgVecInvertsUnArgVec(v: seq<Str>, newlines: bool)
    ensures Args(Joined(QuoteAll(v, newlines)), 0) == QuoteAll(v, newlines)
  {
    if v != [] {
      var t := Joined(QuoteAll(v, newlines));
      JoinedStartsQuoted(v, newlines);
      assert At(t, 0, t);
      ArgsOfJoined(t, 0, 0, v, newlines);
    }
  }
}
