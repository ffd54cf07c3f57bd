/** What the text of a Click configuration string means, token by token, as the documentation of
    cp_uncomment, cp_process_backslash and cp_unquote promises it (click-dpdk/lib/confparse.cc). */
module ConfText {
  import opened Bits
  import opened ConfParse

  // ---------- texts at positions ----------

  /** From position p on the text is u. */
  predicate Rest(t: Str, p: nat, u: Str) { p <= |t| && t[p..] == u }

  predicate Starts(u: Str, b: Byte) { u != [] && u[0] == b }

  lemma {:induction false} Cut(t: Str, p: nat, u: Str, v: Str, w: Str)
    requires Rest(t, p, u + v + w)
    ensures Rest(t, p, u + (v + w)) && Rest(t, p + |u|, v + w) && p + |u| <= |t| && t[p..p + |u|] == u
    ensures forall i :: 0 <= i < |u| ==> t[p + i] == u[i]
    ensures forall i {:trigger (v + w)[i]} :: 0 <= i < |v + w| ==> t[p + |u| + i] == (v + w)[i]
  {
    assert u + v + w == u + (v + w);
    assert t[p + |u|..] == t[p..][|u|..] == v + w;
    forall i | 0 <= i < |u|
      ensures t[p + i] == u[i]
    {
      assert t[p..][i] == t[p + i];
    }
    forall i | 0 <= i < |v + w|
      ensures t[p + |u| + i] == (v + w)[i]
    {
      assert t[p + |u|..][i] == t[p + |u| + i];
    }
    assert t[p..p + |u|] == t[p..][..|u|] == u;
  }

  lemma {:induction false} CutAt(t: Str, p: nat, u: Str, v: Str)
    requires Rest(t, p, u + v)
    ensures Rest(t, p + |u|, v) && p + |u| <= |t| && t[p..p + |u|] == u
  {
    assert t[p + |u|..] == t[p..][|u|..] == v;
    assert t[p..p + |u|] == t[p..][..|u|] == u;
  }

  lemma {:induction false} ByteAt(t: Str, p: nat, u: Str, i: nat)
    requires Rest(t, p, u) && i < |u|
    ensures p + i < |t| && t[p + i] == u[i]
  {
    assert t[p..][i] == t[p + i];
  }

  /** The first byte of what stands at p. */
  lemma {:induction false} First(t: Str, p: nat, b: Byte, v: Str)
    requires Rest(t, p, [b] + v)
    ensures p < |t| && t[p] == b && Rest(t, p + 1, v)
    ensures p + 1 < |t| <==> v != []
    ensures v != [] ==> t[p + 1] == v[0]
  {
    assert [b] + v == [b] + v + [];
    assert v + [] == v;
    Cut(t, p, [b], v, []);
  }

  lemma {:induction false} PlaceIs(t: Str, p: nat, u: Str)
    requires Rest(t, p, u)
    ensures p + |u| == |t|
  {
  }

  lemma {:induction false} SamePlace(t: Str, p: nat, q: nat, u: Str)
    requires Rest(t, p, u) && Rest(t, q, u)
    ensures p == q
  {
    assert |t[p..]| == |t| - p && |t[q..]| == |t| - q;
  }

  // ---------- comments ----------

  datatype Note = Block(body: Str) | Line(body: Str, end: Str)

  function NoteText(n: Note): Str {
    match n
    case Block(body) => [SLASH, STAR] + body + [STAR, SLASH]
    case Line(body, end) => [SLASH, SLASH] + body + end
  }

  /** A newline in its three forms; a return that stands alone is not followed by a newline. */
  predicate Newline(end: Str, rest: Str) {
    end == [NEWLINE] || end == [RETURN, NEWLINE] || (end == [RETURN] && !Starts(rest, NEWLINE))
  }

  predicate GoodNote(n: Note, rest: Str) {
    match n
    case Block(body) => forall i :: 0 <= i < |body| ==> body[i] == STAR ==> (body + [STAR])[i + 1] != SLASH
    case Line(body, end) =>
      (forall i :: 0 <= i < |body| ==> body[i] != NEWLINE && body[i] != RETURN) && Newline(end, rest)
  }

  lemma {:induction false} BlockEnds(t: Str, p: nat, body: Str, rest: Str)
    requires GoodNote(Block(body), rest) && Rest(t, p, body + ([STAR, SLASH] + rest))
    ensures StarSlash(t, p) == p + |body|
    decreases |body|
  {
    assert forall i :: p <= i < |t| ==> t[i] == t[p..][i - p];
    if body != [] {
      assert t[p] == body[0] && t[p + 1] == (body + [STAR])[1];
      assert t[p + 1..] == t[p..][1..] == body[1..] + ([STAR, SLASH] + rest);
      assert body[1..] + [STAR] == (body + [STAR])[1..];
      BlockEnds(t, p + 1, body[1..], rest);
    } else {
      assert t[p] == STAR && t[p + 1] == SLASH;
    }
  }

  lemma {:induction false} LineEnds(t: Str, p: nat, body: Str, end: Str, rest: Str)
    requires GoodNote(Line(body, end), rest) && Rest(t, p, body + (end + rest))
    ensures LineEnd(t, p) == p + |body|
    decreases |body|
  {
    assert forall i :: p <= i < |t| ==> t[i] == t[p..][i - p];
    if body != [] {
      assert t[p] == body[0];
      assert t[p + 1..] == t[p..][1..] == body[1..] + (end + rest);
      LineEnds(t, p + 1, body[1..], end, rest);
    } else {
      assert t[p] == end[0];
    }
  }

  lemma {:induction false} SkipsBlock(t: Str, p: nat, body: Str, rest: Str)
    requires GoodNote(Block(body), rest) && Rest(t, p, NoteText(Block(body)) + rest)
    ensures CommentAt(t, p) && SkipCommentSpec(t, p) == p + |body| + 4
  {
    hide StarSlash, LineEnd, GoodNote;
    assert NoteText(Block(body)) + rest == [SLASH, STAR] + (body + ([STAR, SLASH] + rest)) + [];
    Cut(t, p, [SLASH, STAR], body + ([STAR, SLASH] + rest), []);
    assert body + ([STAR, SLASH] + rest) + [] == body + ([STAR, SLASH] + rest);
    BlockEnds(t, p + 2, body, rest);
  }

  lemma {:induction false} AfterNewline(t: Str, q: nat, end: Str, rest: Str)
    requires Newline(end, rest) && Rest(t, q, end + rest)
    ensures q < |t| && (t[q] == NEWLINE || t[q] == RETURN)
    ensures (if q + 1 < |t| && t[q] == RETURN && t[q + 1] == NEWLINE then q + 1 else q) + 1 == q + |end|
  {
    ByteAt(t, q, end + rest, 0);
    if q + 1 < |t| { ByteAt(t, q, end + rest, 1); }
  }

  lemma {:induction false} SkipsLine(t: Str, p: nat, body: Str, end: Str, rest: Str)
    requires GoodNote(Line(body, end), rest) && Rest(t, p, NoteText(Line(body, end)) + rest)
    ensures CommentAt(t, p) && SkipCommentSpec(t, p) == p + 2 + |body| + |end|
  {
    hide LineEnd, GoodNote, Rest, SkipCommentSpec, CommentAt;
    var tail := body + (end + rest);
    hide NoteText;
    LineText(body, end, rest);
    LineOpens(t, p, tail);
    SkipLineIs(t, p);
    CutAt(t, p + 2, body, end + rest);
    LineEnds(t, p + 2, body, end, rest);
    assert Newline(end, rest) by { NewlineOf(body, end, rest); }
    hide Newline;
    AfterNewline(t, p + 2 + |body|, end, rest);
  }

  lemma {:induction false} LineText(body: Str, end: Str, rest: Str)
    ensures NoteText(Line(body, end)) + rest == [SLASH, SLASH] + (body + (end + rest))
    ensures |NoteText(Line(body, end))| == 2 + |body| + |end|
  {
  }

  lemma {:induction false} SkipLineIs(t: Str, p: nat)
    requires p + 1 < |t| && t[p] == SLASH && t[p + 1] == SLASH
    ensures CommentAt(t, p)
    ensures var q := LineEnd(t, p + 2);
            SkipCommentSpec(t, p) == (if q + 1 < |t| && t[q] == RETURN && t[q + 1] == NEWLINE then q + 1 else q) + 1
  {
    hide LineEnd;
  }

  lemma {:induction false} NewlineOf(body: Str, end: Str, rest: Str)
    requires GoodNote(Line(body, end), rest)
    ensures Newline(end, rest)
  {
  }

  lemma {:induction false} LineOpens(t: Str, p: nat, rest: Str)
    requires Rest(t, p, [SLASH, SLASH] + rest)
    ensures p + 1 < |t| && t[p] == SLASH && t[p + 1] == SLASH && Rest(t, p + 2, rest)
  {
    CutAt(t, p, [SLASH, SLASH], rest);
    ByteAt(t, p, [SLASH, SLASH] + rest, 0);
    ByteAt(t, p, [SLASH, SLASH] + rest, 1);
  }

  /** Every comment is skipped up to its end. */
  lemma {:induction false} SkipsNote(t: Str, p: nat, n: Note, rest: Str)
    requires GoodNote(n, rest) && Rest(t, p, NoteText(n) + rest)
    ensures CommentAt(t, p) && SkipCommentSpec(t, p) == p + |NoteText(n)| && Rest(t, p + |NoteText(n)|, rest)
  {
    hide GoodNote, SkipCommentSpec, CommentAt;
    CutAt(t, p, NoteText(n), rest);
    match n
    case Block(body) => SkipsBlock(t, p, body, rest);
    case Line(body, end) => SkipsLine(t, p, body, end, rest);
  }

  // ---------- digits ----------

  /** A hexadecimal digit and how its letter is written. */
  datatype Nib = Nib(v: nat, upper: bool)

  function DigitByte(n: Nib): Byte
    requires n.v < 16
  {
    if n.v < 10 then 48 + n.v else if n.upper then 65 + (n.v - 10) else 97 + (n.v - 10)
  }

  predicate IsHexDigit(b: Byte) { 48 <= b <= 57 || 65 <= b <= 70 || 97 <= b <= 102 }

  lemma {:induction false} DigitValue(n: Nib)
    requires n.v < 16
    ensures IsHexDigit(DigitByte(n)) && HexValue(DigitByte(n)) == n.v
  {
  }

  lemma {:induction false} DigitsAre(b: Byte)
    ensures HexValue(b) < 16 <==> IsHexDigit(b)
  {
  }

  /** The number that the digits write in a base. */
  function Radix(ds: seq<nat>, base: nat): nat {
    if ds == [] then 0 else Radix(ds[..|ds| - 1], base) * base + ds[|ds| - 1]
  }

  lemma {:induction false} RadixNext(ds: seq<nat>, d: nat, base: nat)
    ensures Radix(ds + [d], base) == Radix(ds, base) * base + d
  {
    assert (ds + [d])[..|ds|] == ds;
  }

  predicate AllDigits(ns: seq<Nib>) { forall i :: 0 <= i < |ns| ==> ns[i].v < 16 }

  function DigitText(ns: seq<Nib>): Str
    requires AllDigits(ns)
  {
    if ns == [] then [] else [DigitByte(ns[0])] + DigitText(ns[1..])
  }

  function Values(ns: seq<Nib>): seq<nat> { if ns == [] then [] else [ns[0].v] + Values(ns[1..]) }

  function OctalText(ds: seq<nat>): Str
    requires forall i :: 0 <= i < |ds| ==> ds[i] < 8
  {
    if ds == [] then [] else [ZERO + ds[0]] + OctalText(ds[1..])
  }

  lemma {:induction false} HexReads(t: Str, p: nat, before: seq<nat>, ns: seq<Nib>, rest: Str)
    requires AllDigits(ns) && (rest != [] ==> !IsHexDigit(rest[0])) && Rest(t, p, DigitText(ns) + rest)
    ensures var r := Hex(t, p, Radix(before, 16)); Rest(t, r.0, rest) && r.1 == Radix(before + Values(ns), 16)
    decreases |ns|
  {
    hide Radix, HexValue, DigitByte;
    if ns == [] {
      assert DigitText(ns) + rest == rest && before + Values(ns) == before;
      if rest != [] {
        assert t[p] == t[p..][0];
        DigitsAre(rest[0]);
      }
    } else {
      var v := ns[0].v;
      assert DigitText(ns) + rest == [DigitByte(ns[0])] + (DigitText(ns[1..]) + rest);
      First(t, p, DigitByte(ns[0]), DigitText(ns[1..]) + rest);
      DigitValue(ns[0]);
      RadixNext(before, v, 16);
      assert before + Values(ns) == before + [v] + Values(ns[1..]);
      HexReads(t, p + 1, before + [v], ns[1..], rest);
    }
  }

  lemma {:induction false} OctalStep(t: Str, p: nat, d: nat, c: nat)
    requires p <= |t|
    ensures Octal(t, p, d, c) ==
            if p < |t| && 48 <= t[p] <= 55 && d < 3 then Octal(t, p + 1, d + 1, c * 8 + (t[p] - 48)) else (p, c)
  {
  }

  lemma {:induction false} OctalReads(t: Str, p: nat, before: seq<nat>, ds: seq<nat>, rest: Str)
    requires (forall i :: 0 <= i < |ds| ==> ds[i] < 8) && |before + ds| <= 3
    requires |before + ds| == 3 || (rest != [] ==> !(48 <= rest[0] <= 55))
    requires Rest(t, p, OctalText(ds) + rest)
    ensures var r := Octal(t, p, |before|, Radix(before, 8)); Rest(t, r.0, rest) && r.1 == Radix(before + ds, 8)
    decreases |ds|
  {
    hide Radix, Octal, Rest;
    PlaceIs(t, p, OctalText(ds) + rest);
    OctalStep(t, p, |before|, Radix(before, 8));
    if ds == [] {
      assert OctalText(ds) + rest == rest && before + ds == before;
      if rest != [] { ByteAt(t, p, rest, 0); }
    } else {
      assert OctalText(ds) + rest == [ZERO + ds[0]] + (OctalText(ds[1..]) + rest);
      First(t, p, ZERO + ds[0], OctalText(ds[1..]) + rest);
      RadixNext(before, ds[0], 8);
      assert before + ds == before + [ds[0]] + ds[1..];
      OctalReads(t, p + 1, before + [ds[0]], ds[1..], rest);
    }
  }

  // ---------- backslash, less-than ----------

  /** What may stand between backslash-less-than and greater-than: digits, comments, and bytes that
      are passed over. */
  datatype Angled = Digit(n: Nib) | Filler(b: Byte) | Remark(note: Note)

  function PieceText(a: Angled): Str
    requires a.Digit? ==> a.n.v < 16
  {
    match a
    case Digit(n) => [DigitByte(n)]
    case Filler(b) => [b]
    case Remark(note) => NoteText(note)
  }

  predicate AllNibs(items: seq<Angled>) { forall i :: 0 <= i < |items| && items[i].Digit? ==> items[i].n.v < 16 }

  function AngleText(items: seq<Angled>): Str
    requires AllNibs(items)
  {
    if items == [] then [] else PieceText(items[0]) + AngleText(items[1..])
  }

  predicate GoodPiece(a: Angled, rest: Str) {
    match a
    case Digit(n) => n.v < 16
    case Filler(b) => !IsHexDigit(b) && b != GT && (b == SLASH ==> !Starts(rest, SLASH) && !Starts(rest, STAR))
    case Remark(note) => GoodNote(note, rest)
  }

  predicate GoodAngle(items: seq<Angled>, tail: Str)
    requires AllNibs(items)
  {
    items == [] || (GoodPiece(items[0], AngleText(items[1..]) + tail) && GoodAngle(items[1..], tail))
  }

  /** The digits, without what stands between them. */
  function Nibbles(items: seq<Angled>): seq<nat> {
    if items == [] then []
    else if items[0].Digit? then [items[0].n.v] + Nibbles(items[1..]) else Nibbles(items[1..])
  }

  /** Two digits make a byte; a single last one is dropped. */
  function Pairs(ns: seq<nat>): Str {
    if |ns| < 2 then [] else [(ns[0] * 16 + ns[1]) % 256] + Pairs(ns[2..])
  }

  lemma {:induction false} AngleFirst(t: Str, p: nat, items: seq<Angled>, tail: Str)
    requires items != [] && AllNibs(items) && GoodAngle(items, tail) && Rest(t, p, AngleText(items) + tail)
    ensures var u, rest := PieceText(items[0]), AngleText(items[1..]) + tail;
            GoodPiece(items[0], rest) && Rest(t, p, u + rest) && Rest(t, p + |u|, rest)
  {
    hide PieceText, GoodPiece;
    Cut(t, p, PieceText(items[0]), AngleText(items[1..]), tail);
  }

  lemma {:induction false} PieceStands(t: Str, p: nat, a: Angled, rest: Str)
    requires GoodPiece(a, rest) && Rest(t, p, PieceText(a) + rest)
    ensures p < |t| && t[p] != GT && (a.Remark? <==> CommentAt(t, p))
    ensures if a.Remark? then SkipCommentSpec(t, p) == p + |PieceText(a)| else |PieceText(a)| == 1
    ensures a.Digit? ==> HexValue(t[p]) == a.n.v
    ensures !a.Digit? ==> HexValue(t[p]) >= 16
  {
    match a
    case Digit(n) =>
      First(t, p, DigitByte(n), rest);
      DigitValue(n);
    case Filler(b) =>
      First(t, p, b, rest);
      DigitsAre(b);
    case Remark(note) =>
      SkipsNote(t, p, note, rest);
  }

  /** The escape is skipped up to its end. */
  lemma {:induction false} AngleSkips(t: Str, p: nat, items: seq<Angled>, tail: Str)
    requires AllNibs(items) && GoodAngle(items, [GT] + tail) && Rest(t, p, AngleText(items) + ([GT] + tail))
    ensures Rest(t, AngleEnd(t, p), tail)
    decreases |items|
  {
    hide SkipCommentSpec, NoteText, GoodNote;
    if items == [] {
      assert [] + ([GT] + tail) == [GT] + tail;
      First(t, p, GT, tail);
    } else {
      AngleFirst(t, p, items, [GT] + tail);
      PieceStands(t, p, items[0], AngleText(items[1..]) + ([GT] + tail));
      AngleSkips(t, p + |PieceText(items[0])|, items[1..], tail);
    }
  }

  function Pending(half: seq<nat>): nat { if half == [] then 0 else half[0] }

  lemma {:induction false} PairsStep(half: seq<nat>, v: nat, ns: seq<nat>)
    requires |half| < 2
    ensures half == [] ==> half + ([v] + ns) == [v] + ns
    ensures half != [] ==> Pairs(half + ([v] + ns)) == [Char(Pending(half) * 16 + v)] + Pairs([] + ns)
  {
    if half != [] {
      assert half + ([v] + ns) == [half[0], v] + ns;
      assert (half + ([v] + ns))[2..] == [] + ns;
    }
  }

  lemma {:induction false} AngleStep(t: Str, p: nat, c: nat, d: nat, a: Angled, rest: Str)
    requires d < 2 && GoodPiece(a, rest) && Rest(t, p, PieceText(a) + rest)
    ensures var q := p + |PieceText(a)|;
            Angle(t, p, c, d) ==
            if !a.Digit? then Angle(t, q, c, d)
            else if d == 0 then Angle(t, q, c * 16 + a.n.v, 1)
            else (Angle(t, q, 0, 0).0, [Char(c * 16 + a.n.v)] + Angle(t, q, 0, 0).1)
  {
    hide NoteText, GoodNote, HexValue, SkipCommentSpec, CommentAt;
    PieceStands(t, p, a, rest);
  }

  /** The escape stands for the bytes that its digits write in pairs. */
  lemma {:induction false} AngleReads(t: Str, p: nat, half: seq<nat>, items: seq<Angled>, tail: Str)
    requires |half| < 2 && AllNibs(items) && GoodAngle(items, [GT] + tail)
    requires Rest(t, p, AngleText(items) + ([GT] + tail))
    ensures var r := Angle(t, p, Pending(half), |half|); Rest(t, r.0, tail) && r.1 == Pairs(half + Nibbles(items))
    decreases |items|
  {
    hide Angle, AngleText, GoodPiece, PieceText, Rest, Pairs;
    if items == [] {
      AngleEnds(t, p, |half|, Pending(half), items, tail);
      assert half + Nibbles(items) == half;
      FewPairs(half);
    } else {
      AngleFirst(t, p, items, [GT] + tail);
      AngleStep(t, p, Pending(half), |half|, items[0], AngleText(items[1..]) + ([GT] + tail));
      var q := p + |PieceText(items[0])|;
      if items[0].Digit? {
        PairsStep(half, items[0].n.v, Nibbles(items[1..]));
        AngleReads(t, q, if half == [] then [items[0].n.v] else [], items[1..], tail);
      } else {
        AngleReads(t, q, half, items[1..], tail);
      }
    }
  }

  lemma {:induction false} FewPairs(half: seq<nat>)
    requires |half| < 2
    ensures Pairs(half) == []
  {
  }

  lemma {:induction false} AngleEnds(t: Str, p: nat, d: nat, c: nat, items: seq<Angled>, tail: Str)
    requires items == [] && Rest(t, p, AngleText(items) + ([GT] + tail))
    ensures Angle(t, p, c, d) == (p + 1, []) && Rest(t, p + 1, tail)
  {
    assert [] + ([GT] + tail) == [GT] + tail;
    First(t, p, GT, tail);
  }

  // ---------- double quotes ----------

  /** What may stand between double quotes. */
  datatype Item =
    | Lit(b: Byte)                  // a byte that stands for itself
    | Letter(b: Byte)               // backslash and one of the letters abfnrtv
    | Octals(ds: seq<nat>)          // backslash and one to three octal digits
    | Hexes(ns: seq<Nib>)           // backslash, x and hexadecimal digits
    | Binary(items: seq<Angled>)    // backslash-less-than to greater-than
    | Joint(end: Str)               // backslash and a newline
    | Other(b: Byte)                // backslash and any other byte

  predicate WellDigited(a: Item) {
    && (a.Octals? ==> forall i :: 0 <= i < |a.ds| ==> a.ds[i] < 8)
    && (a.Hexes? ==> AllDigits(a.ns)) && (a.Binary? ==> AllNibs(a.items))
  }

  function ItemText(a: Item): Str
    requires WellDigited(a)
  {
    match a
    case Lit(b) => [b]
    case Letter(b) => [BACKSLASH, b]
    case Octals(ds) => [BACKSLASH] + OctalText(ds)
    case Hexes(ns) => [BACKSLASH, 120] + DigitText(ns)
    case Binary(items) => [BACKSLASH, LT] + AngleText(items) + [GT]
    case Joint(end) => [BACKSLASH] + end
    case Other(b) => [BACKSLASH, b]
  }

  /** The letters of the C escapes and their bytes. */
  const LETTERS: map<Byte, Byte> := map[97 := 7, 98 := 8, 102 := 12, 110 := 10, 114 := 13, 116 := 9, 118 := 11]

  predicate GoodItem(a: Item, rest: Str) {
    && WellDigited(a)
    && match a
       case Lit(b) => b != DQUOTE && b != BACKSLASH
       case Letter(b) => b in LETTERS
       case Octals(ds) => 1 <= |ds| <= 3 && (|ds| < 3 && rest != [] ==> !(48 <= rest[0] <= 55))
       case Hexes(ns) => rest != [] ==> !IsHexDigit(rest[0])
       case Binary(items) => GoodAngle(items, [GT] + rest)
       case Joint(end) => Newline(end, rest)
       case Other(b) => b !in LETTERS && !(48 <= b <= 55) && b !in [NEWLINE, RETURN, 120, LT]
  }

  function ItemMeaning(a: Item): Str {
    match a
    case Lit(b) => [b]
    case Letter(b) => if b in LETTERS then [LETTERS[b]] else []
    case Octals(ds) => [Radix(ds, 8) % 256]
    case Hexes(ns) => [Radix(Values(ns), 16) % 256]
    case Binary(items) => Pairs(Nibbles(items))
    case Joint(end) => []
    case Other(b) => [b]
  }

  predicate WellDigitedAll(items: seq<Item>) { forall i :: 0 <= i < |items| ==> WellDigited(items[i]) }

  function ItemsText(items: seq<Item>): Str
    requires WellDigitedAll(items)
  {
    if items == [] then [] else ItemText(items[0]) + ItemsText(items[1..])
  }

  predicate GoodItems(items: seq<Item>, tail: Str)
    requires WellDigitedAll(items)
  {
    items == [] || (GoodItem(items[0], ItemsText(items[1..]) + tail) && GoodItems(items[1..], tail))
  }

  function ItemsMeaning(items: seq<Item>): Str {
    if items == [] then [] else ItemMeaning(items[0]) + ItemsMeaning(items[1..])
  }

  lemma {:induction false} OctalsRead(t: Str, p: nat, ds: seq<nat>, rest: Str)
    requires GoodItem(Octals(ds), rest) && Rest(t, p, ItemText(Octals(ds)) + rest)
    ensures p < |t| && Rest(t, Backslash(t, p).0, rest) && Backslash(t, p).1 == [Radix(ds, 8) % 256]
  {
    hide Octal, Radix, Rest, Backslash, OctalText;
    OctalOpens(ds, rest);
    First(t, p, BACKSLASH, OctalText(ds) + rest);
    First(t, p + 1, ZERO + ds[0], OctalText(ds[1..]) + rest);
    BackslashOctal(t, p);
    RadixOfNone();
    assert [] + ds == ds;
    OctalReads(t, p + 1, [], ds, rest);
  }

  lemma {:induction false} OctalOpens(ds: seq<nat>, rest: Str)
    requires ds != [] && forall i :: 0 <= i < |ds| ==> ds[i] < 8
    ensures ItemText(Octals(ds)) + rest == [BACKSLASH] + (OctalText(ds) + rest)
    ensures OctalText(ds) + rest == [ZERO + ds[0]] + (OctalText(ds[1..]) + rest)
  {
    var v := OctalText(ds[1..]);
    assert OctalText(ds) == [ZERO + ds[0]] + v;
    hide OctalText;
    Append([ZERO + ds[0]], v, rest);
    Append([BACKSLASH], OctalText(ds), rest);
  }

  lemma {:induction false} BackslashOctal(t: Str, p: nat)
    requires p + 1 < |t| && 48 <= t[p + 1] <= 55
    ensures Backslash(t, p) == (Octal(t, p + 1, 0, 0).0, [Char(Octal(t, p + 1, 0, 0).1)])
  {
    hide Octal;
  }

  lemma {:induction false} RadixOfNone()
    ensures Radix([], 8) == 0 && Radix([], 16) == 0
  {
  }

  lemma {:induction false} HexesRead(t: Str, p: nat, ns: seq<Nib>, rest: Str)
    requires GoodItem(Hexes(ns), rest) && Rest(t, p, ItemText(Hexes(ns)) + rest)
    ensures p < |t| && Rest(t, Backslash(t, p).0, rest) && Backslash(t, p).1 == [Radix(Values(ns), 16) % 256]
  {
    hide Hex, Radix, DigitText;
    Cut(t, p, [BACKSLASH, 120], DigitText(ns), rest);
    assert [] + Values(ns) == Values(ns) && Radix([], 16) == 0 by { RadixOfNone(); }
    HexReads(t, p + 2, [], ns, rest);
  }

  lemma {:induction false} BinaryReads(t: Str, p: nat, items: seq<Angled>, rest: Str)
    requires GoodItem(Binary(items), rest) && Rest(t, p, ItemText(Binary(items)) + rest)
    ensures p < |t| && Rest(t, Backslash(t, p).0, rest) && Backslash(t, p).1 == Pairs(Nibbles(items))
    ensures p + 1 < |t| && t[p] == BACKSLASH && t[p + 1] == LT && Rest(t, SkipBackslashSpec(t, p), rest)
  {
    hide Angle, AngleEnd, AngleText, GoodAngle, Pairs, Nibbles;
    var u := AngleText(items);
    assert [BACKSLASH, LT] + u + [GT] + rest == [BACKSLASH, LT] + u + ([GT] + rest);
    Cut(t, p, [BACKSLASH, LT], u, [GT] + rest);
    AngleReads(t, p + 2, [], items, rest);
    AngleSkips(t, p + 2, items, rest);
    assert [] + Nibbles(items) == Nibbles(items);
  }

  lemma {:induction false} SimpleReads(t: Str, p: nat, a: Item, rest: Str)
    requires (a.Letter? || a.Other?) && GoodItem(a, rest) && Rest(t, p, ItemText(a) + rest)
    ensures p < |t| && Rest(t, Backslash(t, p).0, rest) && Backslash(t, p).1 == ItemMeaning(a)
    ensures t[p] == BACKSLASH && p + 1 < |t| && t[p + 1] != LT && SkipBackslashSpec(t, p) == p + 2
  {
    CutAt(t, p, ItemText(a), rest);
    ByteAt(t, p, ItemText(a) + rest, 0);
    ByteAt(t, p, ItemText(a) + rest, 1);
  }

  lemma {:induction false} JointReads(t: Str, p: nat, end: Str, rest: Str)
    requires Newline(end, rest) && Rest(t, p, [BACKSLASH] + end + rest)
    ensures p < |t| && Rest(t, Backslash(t, p).0, rest) && Backslash(t, p).1 == []
    ensures t[p] == BACKSLASH && p + 1 < |t| && t[p + 1] != LT && SkipBackslashSpec(t, p) == p + 1 + |end|
  {
    hide Newline;
    assert [BACKSLASH] + end + rest == [BACKSLASH] + (end + rest);
    First(t, p, BACKSLASH, end + rest);
    AfterNewline(t, p + 1, end, rest);
    CutAt(t, p + 1, end, rest);
  }

  lemma {:induction false} EscapeOpens(a: Item, rest: Str)
    requires !a.Lit? && GoodItem(a, rest)
    ensures |ItemText(a)| >= 2 && ItemText(a)[0] == BACKSLASH
  {
    if a.Octals? { assert OctalText(a.ds) == [ZERO + a.ds[0]] + OctalText(a.ds[1..]); }
  }

  /** Each escape stands for its meaning. */
  lemma {:induction false} BackslashReads(t: Str, p: nat, a: Item, rest: Str)
    requires !a.Lit? && GoodItem(a, rest) && Rest(t, p, ItemText(a) + rest)
    ensures p + 1 < |t| && t[p] == BACKSLASH && Backslash(t, p) == (p + |ItemText(a)|, ItemMeaning(a))
  {
    hide Backslash, Rest, GoodAngle, AllNibs, AngleText, Newline;
    CutAt(t, p, ItemText(a), rest);
    EscapeOpens(a, rest);
    ByteAt(t, p, ItemText(a) + rest, 0);
    ByteAt(t, p, ItemText(a) + rest, 1);
    match a {
      case Lit(_) =>
      case Letter(_) => SimpleReads(t, p, a, rest);
      case Octals(ds) => OctalsRead(t, p, ds, rest);
      case Hexes(ns) => HexesRead(t, p, ns, rest);
      case Binary(items) => BinaryReads(t, p, items, rest);
      case Joint(end) => JointReads(t, p, end, rest);
      case Other(_) => SimpleReads(t, p, a, rest);
    }
    SamePlace(t, p + |ItemText(a)|, Backslash(t, p).0, rest);
  }

  /** Bytes that neither end a quoted string nor open an escape. */
  predicate Inert(u: Str) { forall i :: 0 <= i < |u| ==> u[i] != DQUOTE && u[i] != BACKSLASH }

  lemma {:induction false} InertSkipped(t: Str, p: nat, u: Str, rest: Str)
    requires Inert(u) && Rest(t, p, u + rest)
    ensures QuoteEnd(t, p) == QuoteEnd(t, p + |u|) && Rest(t, p + |u|, rest)
    decreases |u|
  {
    hide SkipBackslashSpec;
    if u == [] {
      assert [] + rest == rest;
    } else {
      assert u + rest == [u[0]] + (u[1..] + rest);
      First(t, p, u[0], u[1..] + rest);
      InertSkipped(t, p + 1, u[1..], rest);
    }
  }

  lemma {:induction false} DigitsInert(ns: seq<Nib>)
    requires AllDigits(ns)
    ensures Inert(DigitText(ns))
  {
    if ns != [] {
      DigitValue(ns[0]);
      DigitsInert(ns[1..]);
    }
  }

  lemma {:induction false} OctalsInert(ds: seq<nat>)
    requires forall i :: 0 <= i < |ds| ==> ds[i] < 8
    ensures Inert(OctalText(ds))
  {
    if ds != [] { OctalsInert(ds[1..]); }
  }

  /** After a backslash and one more byte the bytes that are left count for nothing. */
  lemma {:induction false} ShortSkipped(t: Str, p: nat, b: Byte, u: Str, rest: Str)
    requires Inert(u) && b != LT && b != RETURN && Rest(t, p, [BACKSLASH, b] + u + rest)
    ensures QuoteEnd(t, p) == QuoteEnd(t, p + 2 + |u|) && Rest(t, p + 2 + |u|, rest)
  {
    hide Inert;
    Cut(t, p, [BACKSLASH, b], u, rest);
    InertSkipped(t, p + 2, u, rest);
  }

  lemma {:induction false} LitSkipped(t: Str, p: nat, b: Byte, rest: Str)
    requires GoodItem(Lit(b), rest) && Rest(t, p, ItemText(Lit(b)) + rest)
    ensures QuoteEnd(t, p) == QuoteEnd(t, p + |ItemText(Lit(b))|)
  {
    ByteAt(t, p, [b] + rest, 0);
  }

  lemma {:induction false} SimpleSkipped(t: Str, p: nat, a: Item, rest: Str)
    requires (a.Letter? || a.Other?) && GoodItem(a, rest) && Rest(t, p, ItemText(a) + rest)
    ensures QuoteEnd(t, p) == QuoteEnd(t, p + |ItemText(a)|)
  {
    hide SkipBackslashSpec, Rest;
    SimpleReads(t, p, a, rest);
  }

  lemma {:induction false} JointSkipped(t: Str, p: nat, end: Str, rest: Str)
    requires GoodItem(Joint(end), rest) && Rest(t, p, ItemText(Joint(end)) + rest)
    ensures QuoteEnd(t, p) == QuoteEnd(t, p + |ItemText(Joint(end))|)
  {
    hide SkipBackslashSpec, Rest, Newline;
    JointReads(t, p, end, rest);
  }

  lemma {:induction false} HexesSkipped(t: Str, p: nat, ns: seq<Nib>, rest: Str)
    requires GoodItem(Hexes(ns), rest) && Rest(t, p, ItemText(Hexes(ns)) + rest)
    ensures QuoteEnd(t, p) == QuoteEnd(t, p + |ItemText(Hexes(ns))|)
  {
    hide QuoteEnd, Rest, Inert;
    DigitsInert(ns);
    ShortSkipped(t, p, 120, DigitText(ns), rest);
  }

  lemma {:induction false} BinarySkipped(t: Str, p: nat, items: seq<Angled>, rest: Str)
    requires GoodItem(Binary(items), rest) && Rest(t, p, ItemText(Binary(items)) + rest)
    ensures QuoteEnd(t, p) == QuoteEnd(t, p + |ItemText(Binary(items))|)
  {
    hide SkipBackslashSpec, Rest, GoodAngle, AllNibs, AngleText;
    CutAt(t, p, ItemText(Binary(items)), rest);
    BinaryReads(t, p, items, rest);
    SamePlace(t, p + |ItemText(Binary(items))|, SkipBackslashSpec(t, p), rest);
  }

  lemma {:induction false} OctalsSkipped(t: Str, p: nat, ds: seq<nat>, rest: Str)
    requires GoodItem(Octals(ds), rest) && Rest(t, p, ItemText(Octals(ds)) + rest)
    ensures QuoteEnd(t, p) == QuoteEnd(t, p + |ItemText(Octals(ds))|)
  {
    hide QuoteEnd, Rest, Inert;
    OctalsInert(ds[1..]);
    assert ItemText(Octals(ds)) == [BACKSLASH, ZERO + ds[0]] + OctalText(ds[1..]);
    ShortSkipped(t, p, ZERO + ds[0], OctalText(ds[1..]), rest);
  }

  lemma {:induction false} ItemSkipped(t: Str, p: nat, a: Item, rest: Str)
    requires WellDigited(a) && GoodItem(a, rest) && Rest(t, p, ItemText(a) + rest)
    ensures QuoteEnd(t, p) == QuoteEnd(t, p + |ItemText(a)|) && Rest(t, p + |ItemText(a)|, rest)
  {
    hide QuoteEnd, Rest, GoodItem, ItemText;
    CutAt(t, p, ItemText(a), rest);
    match a
    case Lit(b) => LitSkipped(t, p, b, rest);
    case Letter(_) => SimpleSkipped(t, p, a, rest);
    case Octals(ds) => OctalsSkipped(t, p, ds, rest);
    case Hexes(ns) => HexesSkipped(t, p, ns, rest);
    case Binary(items) => BinarySkipped(t, p, items, rest);
    case Joint(end) => JointSkipped(t, p, end, rest);
    case Other(_) => SimpleSkipped(t, p, a, rest);
  }

  lemma {:induction false} ItemsFirst(t: Str, p: nat, items: seq<Item>, tail: Str)
    requires items != [] && WellDigitedAll(items) && GoodItems(items, tail) && Rest(t, p, ItemsText(items) + tail)
    ensures var u, rest := ItemText(items[0]), ItemsText(items[1..]) + tail;
            GoodItem(items[0], rest) && Rest(t, p, u + rest) && GoodItems(items[1..], tail)
  {
    hide ItemText, GoodItem;
    Cut(t, p, ItemText(items[0]), ItemsText(items[1..]), tail);
  }

  lemma {:induction false} ItemsNone(t: Str, p: nat, items: seq<Item>, tail: Str)
    requires items == [] && Rest(t, p, ItemsText(items) + ([DQUOTE] + tail))
    ensures p < |t| && t[p] == DQUOTE && Rest(t, p + 1, tail)
  {
    assert [] + ([DQUOTE] + tail) == [DQUOTE] + tail;
    First(t, p, DQUOTE, tail);
  }

  /** A string in double quotes is skipped up to its end. */
  lemma {:induction false} ItemsSkipped(t: Str, p: nat, items: seq<Item>, tail: Str)
    requires WellDigitedAll(items) && GoodItems(items, [DQUOTE] + tail)
    requires Rest(t, p, ItemsText(items) + ([DQUOTE] + tail))
    ensures Rest(t, QuoteEnd(t, p), tail)
    decreases |items|
  {
    hide ItemsText, ItemText, GoodItem, GoodItems, Rest, SkipBackslashSpec;
    if items == [] {
      ItemsNone(t, p, items, tail);
    } else {
      ItemsFirst(t, p, items, [DQUOTE] + tail);
      ItemSkipped(t, p, items[0], ItemsText(items[1..]) + ([DQUOTE] + tail));
      ItemsSkipped(t, p + |ItemText(items[0])|, items[1..], tail);
    }
  }

  lemma {:induction false} ItemDecoded(t: Str, p: nat, a: Item, rest: Str)
    requires WellDigited(a) && GoodItem(a, rest) && Rest(t, p, ItemText(a) + rest)
    ensures Decode(t, p, DQUOTE) == ItemMeaning(a) + Decode(t, p + |ItemText(a)|, DQUOTE)
    ensures Rest(t, p + |ItemText(a)|, rest)
  {
    hide Decode, Rest, GoodItem, ItemText, ItemMeaning;
    CutAt(t, p, ItemText(a), rest);
    if a.Lit? {
      LitDecoded(t, p, a.b, rest);
    } else {
      BackslashReads(t, p, a, rest);
      EscapeDecoded(t, p);
    }
  }

  lemma {:induction false} GoodIsDigited(a: Item, rest: Str)
    requires GoodItem(a, rest)
    ensures WellDigited(a)
  {
  }

  lemma {:induction false} LitDecoded(t: Str, p: nat, b: Byte, rest: Str)
    requires GoodItem(Lit(b), rest) && Rest(t, p, ItemText(Lit(b)) + rest)
    ensures Decode(t, p, DQUOTE) == ItemMeaning(Lit(b)) + Decode(t, p + |ItemText(Lit(b))|, DQUOTE)
  {
    ByteAt(t, p, [b] + rest, 0);
  }

  lemma {:induction false} EscapeDecoded(t: Str, p: nat)
    requires p + 1 < |t| && t[p] == BACKSLASH
    ensures Decode(t, p, DQUOTE) == Backslash(t, p).1 + Decode(t, Backslash(t, p).0, DQUOTE)
  {
    hide Backslash;
  }

  /** And it stands for what its items mean. */
  lemma {:induction false} ItemsDecoded(t: Str, p: nat, items: seq<Item>, tail: Str)
    requires WellDigitedAll(items) && GoodItems(items, [DQUOTE] + tail)
    requires Rest(t, p, ItemsText(items) + ([DQUOTE] + tail))
    ensures |tail| <= |t| && Decode(t, p, DQUOTE) == ItemsMeaning(items) + Decode(t, |t| - |tail|, 0)
    decreases |items|
  {
    hide ItemsText, ItemText, GoodItem, GoodItems, ItemMeaning;
    if items == [] {
      ItemsNone(t, p, items, tail);
      DecodesDoubleClosing(t, p);
    } else {
      var rest := ItemsText(items[1..]) + ([DQUOTE] + tail);
      ItemsFirst(t, p, items, [DQUOTE] + tail);
      ItemDecoded(t, p, items[0], rest);
      ItemsDecoded(t, p + |ItemText(items[0])|, items[1..], tail);
      Append(ItemMeaning(items[0]), ItemsMeaning(items[1..]), Decode(t, |t| - |tail|, 0));
    }
  }

  lemma {:induction false} DecodesDoubleClosing(t: Str, p: nat)
    requires p < |t| && t[p] == DQUOTE
    ensures Decode(t, p, DQUOTE) == [] + Decode(t, p + 1, 0)
  {
  }

  // ---------- whole strings ----------

  /** What a configuration string is made of. */
  datatype Token =
    | Plain(b: Byte)
    | Space(b: Byte)
    | Comment(note: Note)
    | Single(s: Str)                // between single quotes
    | Double(items: seq<Item>)      // between double quotes
    | Data(pieces: seq<Angled>)     // backslash-less-than to greater-than

  predicate WellFormed(k: Token) {
    (k.Double? ==> WellDigitedAll(k.items)) && (k.Data? ==> AllNibs(k.pieces))
  }

  function TokenText(k: Token): Str
    requires WellFormed(k)
  {
    match k
    case Plain(b) => [b]
    case Space(b) => [b]
    case Comment(note) => NoteText(note)
    case Single(s) => [SQUOTE] + s + [SQUOTE]
    case Double(items) => [DQUOTE] + ItemsText(items) + [DQUOTE]
    case Data(pieces) => [BACKSLASH, LT] + AngleText(pieces) + [GT]
  }

  /** Commas are plain bytes unless they separate arguments. */
  predicate GoodToken(k: Token, comma: bool, rest: Str) {
    && WellFormed(k)
    && match k
       case Plain(b) =>
         && !IsSpace(b) && b != DQUOTE && b != SQUOTE && (comma ==> b != COMMA)
         && (b == SLASH ==> !Starts(rest, SLASH) && !Starts(rest, STAR)) && (b == BACKSLASH ==> !Starts(rest, LT))
       case Space(b) => IsSpace(b)
       case Comment(note) => GoodNote(note, rest)
       case Single(s) => SQUOTE !in s
       case Double(items) => GoodItems(items, [DQUOTE] + rest)
       case Data(pieces) => GoodAngle(pieces, [GT] + rest)
  }

  predicate AllWellFormed(ts: seq<Token>) { forall i :: 0 <= i < |ts| ==> WellFormed(ts[i]) }

  function Text(ts: seq<Token>): Str
    requires AllWellFormed(ts)
  {
    if ts == [] then [] else TokenText(ts[0]) + Text(ts[1..])
  }

  predicate Good(ts: seq<Token>, comma: bool, tail: Str)
    requires AllWellFormed(ts)
  {
    ts == [] || (GoodToken(ts[0], comma, Text(ts[1..]) + tail) && Good(ts[1..], comma, tail))
  }

  /** A gap is white space and comments. */
  predicate IsGap(k: Token) { k.Space? || k.Comment? }

  function WithoutGap(ts: seq<Token>): (r: seq<Token>)
    ensures |r| <= |ts| && r == ts[|ts| - |r|..]
  {
    if ts != [] && IsGap(ts[0]) then WithoutGap(ts[1..]) else ts
  }

  /** What follows a word: a gap with a comment in it becomes one space, other gaps stay, and a gap
      at the end is removed. */
  function Tidied(ts: seq<Token>, noted: bool, gap: seq<Token>): (r: seq<Token>)
    ensures AllWellFormed(ts) && AllWellFormed(gap) ==> AllWellFormed(r)
  {
    if ts == [] then []
    else match ts[0]
         case Space(_) => Tidied(ts[1..], noted, gap + [ts[0]])
         case Comment(_) => Tidied(ts[1..], true, gap)
         case _ => (if noted then [Space(SPACE)] else gap) + [ts[0]] + Tidied(ts[1..], false, [])
  }

  /** Initial gaps are removed as well. */
  function Tidy(ts: seq<Token>): seq<Token> { Tidied(WithoutGap(ts), false, []) }

  /** What cp_unquote makes of a string without comments. */
  function TokenMeaning(k: Token): Str {
    match k
    case Plain(b) => [b]
    case Space(b) => [b]
    case Comment(_) => []
    case Single(s) => s
    case Double(items) => ItemsMeaning(items)
    case Data(pieces) => Pairs(Nibbles(pieces))
  }

  function Meaning(ts: seq<Token>): Str {
    if ts == [] then [] else TokenMeaning(ts[0]) + Meaning(ts[1..])
  }

  // ---------- skipping words ----------

  lemma {:induction false} SingleSkipped(t: Str, p: nat, s: Str, rest: Str)
    requires SQUOTE !in s && Rest(t, p, s + ([SQUOTE] + rest))
    ensures SingleQuoteEnd(t, p) == p + |s| + 1
    decreases |s|
  {
    if s == [] {
      assert s + ([SQUOTE] + rest) == [SQUOTE] + rest;
      First(t, p, SQUOTE, rest);
    } else {
      assert s + ([SQUOTE] + rest) == [s[0]] + (s[1..] + ([SQUOTE] + rest));
      First(t, p, s[0], s[1..] + ([SQUOTE] + rest));
      SingleSkipped(t, p + 1, s[1..], rest);
    }
  }

  lemma {:induction false} SingleStands(t: Str, p: nat, s: Str, rest: Str)
    requires SQUOTE !in s && Rest(t, p, [SQUOTE] + s + [SQUOTE] + rest)
    ensures p < |t| && t[p] == SQUOTE && TextEnd(t, p) == p + |s| + 2 && Rest(t, p + 1, s + ([SQUOTE] + rest))
  {
    hide SingleQuoteEnd, Rest;
    assert [SQUOTE] + s + [SQUOTE] + rest == [SQUOTE] + (s + ([SQUOTE] + rest));
    First(t, p, SQUOTE, s + ([SQUOTE] + rest));
    SingleSkipped(t, p + 1, s, rest);
  }

  lemma {:induction false} DoubleStands(t: Str, p: nat, items: seq<Item>, rest: Str)
    requires WellDigitedAll(items) && GoodItems(items, [DQUOTE] + rest)
    requires Rest(t, p, [DQUOTE] + ItemsText(items) + [DQUOTE] + rest)
    ensures p < |t| && t[p] == DQUOTE && Rest(t, p + 1, ItemsText(items) + ([DQUOTE] + rest))
    ensures Rest(t, TextEnd(t, p), rest)
  {
    hide QuoteEnd, Rest, ItemsText, GoodItems;
    var u := ItemsText(items);
    assert [DQUOTE] + u + [DQUOTE] + rest == [DQUOTE] + (u + ([DQUOTE] + rest));
    First(t, p, DQUOTE, u + ([DQUOTE] + rest));
    ItemsSkipped(t, p + 1, items, rest);
  }

  lemma {:induction false} AngleStands(t: Str, p: nat, items: seq<Angled>, rest: Str)
    requires AllNibs(items) && GoodAngle(items, [GT] + rest)
    requires Rest(t, p, [BACKSLASH, LT] + AngleText(items) + [GT] + rest)
    ensures p + 1 < |t| && t[p] == BACKSLASH && t[p + 1] == LT && Rest(t, TextEnd(t, p), rest)
    ensures Rest(t, Backslash(t, p).0, rest) && Backslash(t, p).1 == Pairs(Nibbles(items))
  {
    hide GoodAngle, Rest, Backslash, SkipBackslashSpec, AngleText;
    BinaryReads(t, p, items, rest);
  }

  lemma {:induction false} PlainStands(t: Str, p: nat, b: Byte, comma: bool, rest: Str)
    requires GoodToken(Plain(b), comma, rest) && Rest(t, p, [b] + rest)
    ensures p < |t| && t[p] == b && !CommentAt(t, p) && TextEnd(t, p) == p + 1
  {
    First(t, p, b, rest);
  }

  /** A word stands for itself and ends where the next token starts. */
  lemma {:induction false} WordStands(t: Str, p: nat, k: Token, comma: bool, rest: Str)
    requires WellFormed(k) && GoodToken(k, comma, rest) && !IsGap(k) && Rest(t, p, TokenText(k) + rest)
    ensures p < |t| && !IsSpace(t[p]) && !CommentAt(t, p) && (comma ==> t[p] != COMMA)
    ensures TextEnd(t, p) == p + |TokenText(k)| <= |t| && t[p..p + |TokenText(k)|] == TokenText(k)
    ensures Rest(t, p + |TokenText(k)|, rest)
  {
    hide TextEnd, Rest, ItemsText, AngleText, GoodItems, GoodAngle, AllNibs, WellDigitedAll;
    CutAt(t, p, TokenText(k), rest);
    match k {
      case Plain(b) => PlainStands(t, p, b, comma, rest);
      case Space(_) =>
      case Comment(_) =>
      case Single(s) => SingleStands(t, p, s, rest);
      case Double(items) =>
        DoubleStands(t, p, items, rest);
        SamePlace(t, p + |TokenText(k)|, TextEnd(t, p), rest);
      case Data(pieces) =>
        AngleStands(t, p, pieces, rest);
        SamePlace(t, p + |TokenText(k)|, TextEnd(t, p), rest);
    }
  }

  // ---------- removing comments ----------

  /** The loop's variables after one more token. */
  function Moved(t: Str, v: Scan, k: Token): Scan
    requires WellFormed(k)
  {
    var q := v.p + |TokenText(k)|;
    match k
    case Space(_) => v.(p := q)
    case Comment(_) => v.(p := q, closed := true)
    case _ =>
      if v.closed then Scan(q, v.p, q, false, v.sa + Substring(t, v.left, v.right) + [SPACE])
      else v.(p := q, right := q)
  }

  lemma {:induction false} ScanStep(t: Str, comma: bool, v: Scan, k: Token, rest: Str)
    requires WellFormed(k) && GoodToken(k, comma, rest) && Rest(t, v.p, TokenText(k) + rest)
    ensures ScanEnd(t, comma, v) == ScanEnd(t, comma, Moved(t, v, k)) && Rest(t, Moved(t, v, k).p, rest)
  {
    hide Rest, ScanEnd, NoteText, GoodNote, ItemsText, AngleText, GoodItems, GoodAngle, WellDigitedAll, AllNibs;
    match k
    case Space(b) => ScanSpace(t, comma, v, b, rest);
    case Comment(note) => ScanNote(t, comma, v, note, rest);
    case _ => ScanWord(t, comma, v, k, rest);
  }

  lemma {:induction false} ScanSpace(t: Str, comma: bool, v: Scan, b: Byte, rest: Str)
    requires IsSpace(b) && Rest(t, v.p, [b] + rest)
    ensures ScanEnd(t, comma, v) == ScanEnd(t, comma, v.(p := v.p + 1)) && Rest(t, v.p + 1, rest)
  {
    First(t, v.p, b, rest);
  }

  lemma {:induction false} ScanNote(t: Str, comma: bool, v: Scan, note: Note, rest: Str)
    requires GoodNote(note, rest) && Rest(t, v.p, NoteText(note) + rest)
    ensures ScanEnd(t, comma, v) == ScanEnd(t, comma, v.(p := v.p + |NoteText(note)|, closed := true))
    ensures Rest(t, v.p + |NoteText(note)|, rest)
  {
    hide GoodNote, NoteText, Rest, SkipCommentSpec, TextEnd;
    SkipsNote(t, v.p, note, rest);
  }

  lemma {:induction false} ScanWord(t: Str, comma: bool, v: Scan, k: Token, rest: Str)
    requires WellFormed(k) && GoodToken(k, comma, rest) && !IsGap(k) && Rest(t, v.p, TokenText(k) + rest)
    ensures ScanEnd(t, comma, v) == ScanEnd(t, comma, Moved(t, v, k)) && Rest(t, v.p + |TokenText(k)|, rest)
  {
    hide TokenText, GoodToken, WellFormed, Rest, TextEnd, SkipCommentSpec, CommentAt, IsSpace, Substring;
    WordStands(t, v.p, k, comma, rest);
  }

  lemma {:induction false} TextJoins(a: seq<Token>, b: seq<Token>)
    requires AllWellFormed(a) && AllWellFormed(b)
    ensures AllWellFormed(a + b) && Text(a + b) == Text(a) + Text(b)
    decreases |a|
  {
    hide TokenText, WellFormed;
    if a == [] {
      assert a + b == b;
    } else {
      TextJoins(a[1..], b);
      assert (a + b)[1..] == a[1..] + b;
      Append(TokenText(a[0]), Text(a[1..]), Text(b));
    }
  }

  lemma {:induction false} TextOfOne(k: Token)
    requires WellFormed(k)
    ensures AllWellFormed([k]) && Text([k]) == TokenText(k)
  {
    assert Text([k]) == TokenText(k) + [];
  }

  lemma {:induction false} TokenFirst(t: Str, p: nat, ts: seq<Token>, comma: bool, tail: Str)
    requires ts != [] && AllWellFormed(ts) && Good(ts, comma, tail) && Rest(t, p, Text(ts) + tail)
    ensures var rest := Text(ts[1..]) + tail;
            WellFormed(ts[0]) && GoodToken(ts[0], comma, rest) && Rest(t, p, TokenText(ts[0]) + rest)
            && Good(ts[1..], comma, tail)
  {
    hide TokenText, GoodToken;
    Cut(t, p, TokenText(ts[0]), Text(ts[1..]), tail);
  }

  lemma {:induction false} ScanStops(t: Str, comma: bool, v: Scan, tail: Str)
    requires Rest(t, v.p, Text([]) + tail) && (tail == [] || (comma && tail[0] == COMMA))
    ensures ScanEnd(t, comma, v) == v && v.p == |t| - |tail|
  {
    assert [] + tail == tail;
    if tail != [] { ByteAt(t, v.p, tail, 0); }
  }

  /** What the loop has gathered. */
  function Gathered(t: Str, v: Scan): Str { v.sa + Substring(t, v.left, v.right) }

  lemma {:induction false} SliceJoins(t: Str, a: nat, b: nat, c: nat)
    requires a <= b <= c <= |t|
    ensures t[a..b] + t[b..c] == t[a..c]
  {
  }

  lemma {:induction false} WordGathered(t: Str, v: Scan, k: Token, gap: seq<Token>)
    requires v.left <= v.right <= v.p && WellFormed(k) && !IsGap(k) && AllWellFormed(gap)
    requires v.p + |TokenText(k)| <= |t| && t[v.p..v.p + |TokenText(k)|] == TokenText(k)
    requires !v.closed ==> t[v.right..v.p] == Text(gap)
    ensures AllWellFormed((if v.closed then [Space(SPACE)] else gap) + [k])
    ensures Gathered(t, Moved(t, v, k)) == Gathered(t, v) + Text((if v.closed then [Space(SPACE)] else gap) + [k])
  {
    hide TokenText, Text, Gathered, Substring;
    TextOfOne(k);
    var q := v.p + |TokenText(k)|;
    if v.closed {
      SpaceText();
      TextJoins([Space(SPACE)], [k]);
      GatheredClosed(t, v, q);
    } else {
      TextJoins(gap, [k]);
      GatheredOpen(t, v, q);
    }
  }

  lemma {:induction false} GatheredClosed(t: Str, v: Scan, q: nat)
    requires v.left <= v.right <= v.p <= q <= |t|
    ensures Gathered(t, Scan(q, v.p, q, false, v.sa + Substring(t, v.left, v.right) + [SPACE]))
            == Gathered(t, v) + ([SPACE] + t[v.p..q])
  {
    assert t[v.p..v.p] == [];
  }

  lemma {:induction false} GatheredOpen(t: Str, v: Scan, q: nat)
    requires v.left <= v.right <= v.p <= q <= |t|
    ensures Gathered(t, v.(p := q, right := q)) == Gathered(t, v) + (t[v.right..v.p] + t[v.p..q])
  {
    SliceJoins(t, v.right, v.p, q);
    SliceJoins(t, v.left, v.right, q);
    SubstringIs(t, v.left, v.right);
    SubstringIs(t, v.left, q);
    Append(v.sa, t[v.left..v.right], t[v.right..q]);
  }

  lemma {:induction false} SubstringIs(t: Str, a: nat, b: nat)
    requires a <= b <= |t|
    ensures Substring(t, a, b) == t[a..b]
  {
  }

  lemma {:induction false} SpaceText()
    ensures WellFormed(Space(SPACE)) && AllWellFormed([Space(SPACE)]) && Text([Space(SPACE)]) == [SPACE]
  {
    TextOfOne(Space(SPACE));
  }

  lemma {:induction false} GapGathered(t: Str, v: Scan, k: Token, gap: seq<Token>, rest: Str)
    requires v.left <= v.right <= v.p && WellFormed(k) && IsGap(k) && AllWellFormed(gap)
    requires Rest(t, v.p, TokenText(k) + rest) && (!v.closed ==> t[v.right..v.p] == Text(gap))
    ensures AllWellFormed(gap + [k]) && Gathered(t, Moved(t, v, k)) == Gathered(t, v)
    ensures var w := Moved(t, v, k);
            && w.left <= w.right <= w.p <= |t| && (w.closed <==> v.closed || k.Comment?)
            && (!w.closed ==> t[w.right..w.p] == Text(if k.Space? then gap + [k] else gap))
  {
    hide Text;
    CutAt(t, v.p, TokenText(k), rest);
    TextOfOne(k);
    TextJoins(gap, [k]);
    SliceJoins(t, v.right, v.p, v.p + |TokenText(k)|);
  }

  lemma {:induction false} TidiedNext(ts: seq<Token>, noted: bool, gap: seq<Token>)
    requires ts != []
    ensures Tidied(ts, noted, gap) ==
            if ts[0].Space? then Tidied(ts[1..], noted, gap + [ts[0]])
            else if ts[0].Comment? then Tidied(ts[1..], true, gap)
            else (if noted then [Space(SPACE)] else gap) + [ts[0]] + Tidied(ts[1..], false, [])
  {
  }

  lemma {:induction false} NothingTidied(noted: bool, gap: seq<Token>)
    ensures Tidied([], noted, gap) == [] && Text([]) == []
  {
  }

  /** The loop from a state in which a gap has been passed. */
  lemma {:induction false} ScanTidies(t: Str, comma: bool, v: Scan, ts: seq<Token>, gap: seq<Token>, tail: Str)
    requires AllWellFormed(ts) && Good(ts, comma, tail) && Rest(t, v.p, Text(ts) + tail)
    requires tail == [] || (comma && tail[0] == COMMA)
    requires v.left <= v.right <= v.p && AllWellFormed(gap) && (!v.closed ==> t[v.right..v.p] == Text(gap))
    ensures var w := ScanEnd(t, comma, v);
            w.p == |t| - |tail| && Gathered(t, w) == Gathered(t, v) + Text(Tidied(ts, v.closed, gap))
    decreases |ts|
  {
    hide Text, TokenText, GoodToken, Good, WellFormed, ScanEnd, Rest, Gathered, Tidied;
    NothingTidied(v.closed, gap);
    if ts == [] {
      ScanStops(t, comma, v, tail);
    } else {
      var k := ts[0];
      var rest := Text(ts[1..]) + tail;
      TokenFirst(t, v.p, ts, comma, tail);
      ScanStep(t, comma, v, k, rest);
      TidiedNext(ts, v.closed, gap);
      if IsGap(k) {
        GapGathered(t, v, k, gap, rest);
        ScanTidies(t, comma, Moved(t, v, k), ts[1..], if k.Space? then gap + [k] else gap, tail);
      } else {
        WordStands(t, v.p, k, comma, rest);
        WordGathered(t, v, k, gap);
        assert t[v.p + |TokenText(k)|..v.p + |TokenText(k)|] == [];
        ScanTidies(t, comma, Moved(t, v, k), ts[1..], [], tail);
        TextJoins((if v.closed then [Space(SPACE)] else gap) + [k], Tidied(ts[1..], false, []));
      }
    }
  }

  /** The start of cp_uncomment passes a gap. */
  lemma {:induction false} SkipsGap(t: Str, p: nat, ts: seq<Token>, comma: bool, tail: Str)
    requires AllWellFormed(ts) && Good(ts, comma, tail) && Rest(t, p, Text(ts) + tail)
    requires tail == [] || (comma && tail[0] == COMMA)
    ensures var r := WithoutGap(ts); Good(r, comma, tail) && Rest(t, SpaceEnd(t, p), Text(r) + tail)
    decreases |ts|
  {
    hide Text, TokenText, GoodToken, Good, WellFormed, Rest, SpaceEnd;
    if ts == [] {
      GapStops(t, p, tail);
    } else {
      var k, rest := ts[0], Text(ts[1..]) + tail;
      TokenFirst(t, p, ts, comma, tail);
      SpaceStep(t, p, k, comma, rest);
      if IsGap(k) {
        SkipsGap(t, p + |TokenText(k)|, ts[1..], comma, tail);
      }
    }
  }

  lemma {:induction false} GapStops(t: Str, p: nat, tail: Str)
    requires Rest(t, p, Text([]) + tail) && (tail == [] || tail[0] == COMMA)
    ensures SpaceEnd(t, p) == p
  {
    assert [] + tail == tail;
    if tail != [] { ByteAt(t, p, tail, 0); }
  }

  lemma {:induction false} SpaceStep(t: Str, p: nat, k: Token, comma: bool, rest: Str)
    requires WellFormed(k) && GoodToken(k, comma, rest) && Rest(t, p, TokenText(k) + rest)
    ensures SpaceEnd(t, p) == if IsGap(k) then SpaceEnd(t, p + |TokenText(k)|) else p
    ensures Rest(t, p + |TokenText(k)|, rest)
  {
    hide Rest, NoteText, GoodNote, ItemsText, AngleText, GoodItems, GoodAngle, WellDigitedAll, AllNibs;
    hide SkipCommentSpec;
    CutAt(t, p, TokenText(k), rest);
    match k
    case Space(b) => First(t, p, b, rest);
    case Comment(note) => SkipsNote(t, p, note, rest);
    case _ => WordStands(t, p, k, comma, rest);
  }

  /** cp_uncomment removes comments and the white space around them, in any string whose quotes and
      comments are terminated; it stops at the comma or at the end. */
  lemma {:induction false} UncommentIsTidy(t: Str, p: nat, ts: seq<Token>, comma: bool, tail: Str)
    requires AllWellFormed(ts) && Good(ts, comma, tail) && Rest(t, p, Text(ts) + tail)
    requires tail == [] || (comma && tail[0] == COMMA)
    ensures UncommentSpec(t, p, comma) == (Text(Tidy(ts)), |t| - |tail|)
  {
    hide Text, Good, Rest, SpaceEnd, ScanEnd, Tidied;
    SkipsGap(t, p, ts, comma, tail);
    var q := SpaceEnd(t, p);
    var start := Scan(q, q, q, false, []);
    PlaceIs(t, q, Text(WithoutGap(ts)) + tail);
    NothingTidied(false, []);
    assert t[q..q] == [];
    ScanTidies(t, comma, start, WithoutGap(ts), [], tail);
    NothingGathered(t, start);
    UncommentIs(t, p, comma);
    assert [] + Text(Tidy(ts)) == Text(Tidy(ts));
  }

  lemma {:induction false} NothingGathered(t: Str, v: Scan)
    requires v.left == v.right && v.sa == []
    ensures Gathered(t, v) == []
  {
  }

  lemma {:induction false} UncommentIs(t: Str, p: nat, comma: bool)
    ensures var q := SpaceEnd(t, p); var w := ScanEnd(t, comma, Scan(q, q, q, false, []));
            UncommentSpec(t, p, comma) == (Gathered(t, w), w.p)
  {
  }

  // ---------- removing quotes ----------

  lemma {:induction false} SingleDecoded(t: Str, p: nat, s: Str, rest: Str)
    requires SQUOTE !in s && Rest(t, p, s + ([SQUOTE] + rest))
    ensures |rest| <= |t| && Decode(t, p, SQUOTE) == s + Decode(t, |t| - |rest|, 0)
    decreases |s|
  {
    hide Decode;
    SingleStep(t, p);
    if s == [] {
      assert s + ([SQUOTE] + rest) == [SQUOTE] + rest;
      First(t, p, SQUOTE, rest);
    } else {
      assert s + ([SQUOTE] + rest) == [s[0]] + (s[1..] + ([SQUOTE] + rest));
      First(t, p, s[0], s[1..] + ([SQUOTE] + rest));
      SingleDecoded(t, p + 1, s[1..], rest);
      Append([s[0]], s[1..], Decode(t, |t| - |rest|, 0));
      assert [s[0]] + s[1..] == s;
    }
  }

  lemma {:induction false} SingleStep(t: Str, p: nat)
    ensures p < |t| ==>
            Decode(t, p, SQUOTE) ==
            if t[p] == SQUOTE then [] + Decode(t, p + 1, 0) else [t[p]] + Decode(t, p + 1, SQUOTE)
  {
  }

  lemma {:induction false} TokenDecoded(t: Str, p: nat, k: Token, rest: Str)
    requires WellFormed(k) && !k.Comment? && GoodToken(k, false, rest) && Rest(t, p, TokenText(k) + rest)
    ensures Rest(t, p + |TokenText(k)|, rest)
    ensures Decode(t, p, 0) == TokenMeaning(k) + Decode(t, p + |TokenText(k)|, 0)
  {
    hide Rest, ItemsText, AngleText, GoodItems, GoodAngle, WellDigitedAll, AllNibs, Backslash, TextEnd;
    hide ItemsMeaning, Pairs, Nibbles;
    CutAt(t, p, TokenText(k), rest);
    match k
    case Plain(b) =>
      First(t, p, b, rest);
    case Space(b) => First(t, p, b, rest);
    case Single(s) =>
      SingleStands(t, p, s, rest);
      SingleDecoded(t, p + 1, s, rest);
    case Double(items) =>
      DoubleStands(t, p, items, rest);
      ItemsDecoded(t, p + 1, items, rest);
    case Data(pieces) =>
      AngleStands(t, p, pieces, rest);
      SamePlace(t, p + |TokenText(k)|, Backslash(t, p).0, rest);
  }

  predicate NoComments(ts: seq<Token>) { forall i :: 0 <= i < |ts| ==> !ts[i].Comment? }

  lemma {:induction false} AllDecoded(t: Str, p: nat, ts: seq<Token>)
    requires AllWellFormed(ts) && NoComments(ts) && Good(ts, false, []) && Rest(t, p, Text(ts) + [])
    ensures Decode(t, p, 0) == Meaning(ts)
    decreases |ts|
  {
    hide Text, TokenText, GoodToken, Good, WellFormed, Rest, Decode, TokenMeaning;
    if ts == [] {
      AllRead(t, p);
    } else {
      TokenFirst(t, p, ts, false, []);
      TokenDecoded(t, p, ts[0], Text(ts[1..]) + []);
      AllDecoded(t, p + |TokenText(ts[0])|, ts[1..]);
    }
  }

  lemma {:induction false} AllRead(t: Str, p: nat)
    requires Rest(t, p, Text([]) + [])
    ensures Decode(t, p, 0) == []
  {
    assert |t| == p by { assert |t[p..]| == 0; }
  }

  // ---------- unquoting ----------

  /** The two texts start with the same byte. */
  predicate SameStart(u: Str, v: Str) { u != [] && v != [] && u[0] == v[0] }

  lemma {:induction false} AngleStaysGood(items: seq<Angled>, u: Str, v: Str)
    requires AllNibs(items) && SameStart(u, v) && GoodAngle(items, u)
    ensures GoodAngle(items, v)
    decreases |items|
  {
    if items != [] {
      AngleStaysGood(items[1..], u, v);
      assert SameStart(AngleText(items[1..]) + u, AngleText(items[1..]) + v);
    }
  }

  lemma {:induction false} ItemStaysGood(a: Item, u: Str, v: Str)
    requires SameStart(u, v) && GoodItem(a, u)
    ensures GoodItem(a, v)
  {
    if a.Binary? { AngleStaysGood(a.items, [GT] + u, [GT] + v); }
  }

  lemma {:induction false} ItemsStayGood(items: seq<Item>, u: Str, v: Str)
    requires WellDigitedAll(items) && SameStart(u, v) && GoodItems(items, u)
    ensures GoodItems(items, v)
    decreases |items|
  {
    hide GoodItem, ItemText;
    if items != [] {
      ItemsStayGood(items[1..], u, v);
      assert SameStart(ItemsText(items[1..]) + u, ItemsText(items[1..]) + v);
      ItemStaysGood(items[0], ItemsText(items[1..]) + u, ItemsText(items[1..]) + v);
    }
  }

  /** Where comments are removed a word may come before a space, or before the end. */
  predicate MayFollow(u: Str, v: Str) { v == [] || IsSpace(v[0]) || SameStart(u, v) }

  lemma {:induction false} WordStaysGood(k: Token, u: Str, v: Str)
    requires GoodToken(k, false, u) && !IsGap(k) && MayFollow(u, v)
    ensures GoodToken(k, false, v)
  {
    hide AngleText, ItemsText, GoodItems, GoodAngle;
    if k.Double? { ItemsStayGood(k.items, [DQUOTE] + u, [DQUOTE] + v); }
    if k.Data? { AngleStaysGood(k.pieces, [GT] + u, [GT] + v); }
  }

  predicate Spaces(gap: seq<Token>) { forall i :: 0 <= i < |gap| ==> gap[i].Space? && IsSpace(gap[i].b) }

  lemma {:induction false} GapStaysGood(gap: seq<Token>, ts: seq<Token>)
    requires Spaces(gap) && AllWellFormed(ts) && NoComments(ts) && Good(ts, false, [])
    ensures AllWellFormed(gap + ts) && NoComments(gap + ts) && Good(gap + ts, false, [])
    ensures gap != [] ==> Text(gap + ts) != [] && IsSpace(Text(gap + ts)[0])
    decreases |gap|
  {
    hide AllWellFormed, NoComments, Good, Text, IsSpace;
    if gap == [] {
      assert gap + ts == ts;
    } else {
      var rest := gap[1..];
      assert Spaces(rest);
      GapStaysGood(rest, ts);
      assert gap[0] == Space(gap[0].b);
      SpaceInFront(gap[0].b, rest + ts);
      assert gap + ts == [gap[0]] + (rest + ts);
    }
  }

  lemma {:induction false} SpaceInFront(b: Byte, ts: seq<Token>)
    requires IsSpace(b) && AllWellFormed(ts) && NoComments(ts) && Good(ts, false, [])
    ensures var r := [Space(b)] + ts;
            AllWellFormed(r) && NoComments(r) && Good(r, false, []) && Text(r) == [b] + Text(ts)
  {
    assert ([Space(b)] + ts)[1..] == ts;
  }

  /** Without its comments the string is still made of good tokens. */
  lemma {:induction false} TidiedIsGood(ts: seq<Token>, noted: bool, gap: seq<Token>)
    requires AllWellFormed(ts) && Good(ts, false, []) && Spaces(gap)
    ensures var r := Tidied(ts, noted, gap);
            && AllWellFormed(r) && NoComments(r) && Good(r, false, [])
            && (if noted || gap != [] then Text(r) == [] || IsSpace(Text(r)[0]) else MayFollow(Text(ts), Text(r)))
    decreases |ts|, 2
  {
    hide Text, TokenText, GoodToken, Good, Tidied, WellFormed;
    if ts == [] {
      NothingTidied(noted, gap);
      NothingGood();
    } else {
      TidiedNext(ts, noted, gap);
      GoodParts(ts);
      if ts[0].Space? {
        TidiedIsGood(ts[1..], noted, gap + [ts[0]]);
      } else if ts[0].Comment? {
        TidiedIsGood(ts[1..], true, gap);
      } else {
        WordTidied(ts, noted, gap);
      }
    }
  }

  lemma {:induction false} NothingGood()
    ensures Good([], false, []) && Text([]) == []
  {
  }

  lemma {:induction false} GoodParts(ts: seq<Token>)
    requires ts != [] && AllWellFormed(ts) && Good(ts, false, [])
    ensures GoodToken(ts[0], false, Text(ts[1..])) && Good(ts[1..], false, [])
    ensures Text(ts) == TokenText(ts[0]) + Text(ts[1..])
    ensures ts[0].Space? ==> Text(ts) != [] && IsSpace(ts[0].b) && Text(ts)[0] == ts[0].b
    ensures !IsGap(ts[0]) ==> TokenText(ts[0]) != []
  {
    assert Text(ts[1..]) + [] == Text(ts[1..]);
  }

  lemma {:induction false} WordTidied(ts: seq<Token>, noted: bool, gap: seq<Token>)
    requires ts != [] && !IsGap(ts[0]) && AllWellFormed(ts) && Good(ts, false, []) && Spaces(gap)
    ensures var r := Tidied(ts, noted, gap);
            && AllWellFormed(r) && NoComments(r) && Good(r, false, [])
            && (if noted || gap != [] then Text(r) == [] || IsSpace(Text(r)[0]) else MayFollow(Text(ts), Text(r)))
    decreases |ts|, 1
  {
    hide Text, TokenText, GoodToken, Good, Tidied, WellFormed, MayFollow;
    var word := [ts[0]] + Tidied(ts[1..], false, []);
    var pre := if noted then [Space(SPACE)] else gap;
    TidiedNext(ts, noted, gap);
    WordAndRest(ts);
    GapStaysGood(pre, word);
    assert pre + [ts[0]] + Tidied(ts[1..], false, []) == pre + word;
    assert [] + word == word;
  }

  lemma {:induction false} WordAndRest(ts: seq<Token>)
    requires ts != [] && !IsGap(ts[0]) && AllWellFormed(ts) && Good(ts, false, [])
    ensures var r := [ts[0]] + Tidied(ts[1..], false, []);
            AllWellFormed(r) && NoComments(r) && Good(r, false, []) && MayFollow(Text(ts), Text(r))
    decreases |ts|, 0
  {
    hide Text, TokenText, GoodToken, Good, Tidied, WellFormed;
    var k, rest := ts[0], Tidied(ts[1..], false, []);
    GoodParts(ts);
    TidiedIsGood(ts[1..], false, []);
    WordStaysGood(k, Text(ts[1..]), Text(rest));
    WordInFront(k, rest);
  }

  lemma {:induction false} WordInFront(k: Token, rest: seq<Token>)
    requires AllWellFormed(rest) && NoComments(rest) && Good(rest, false, [])
    requires GoodToken(k, false, Text(rest)) && !k.Comment?
    ensures AllWellFormed([k] + rest) && NoComments([k] + rest) && Good([k] + rest, false, [])
    ensures Text([k] + rest) == TokenText(k) + Text(rest)
  {
    hide TokenText, GoodToken;
    assert ([k] + rest)[1..] == rest && Text(rest) + [] == Text(rest);
    assert WellFormed(k) by { GoodIsFormed(k, Text(rest)); }
  }

  lemma {:induction false} GoodIsFormed(k: Token, rest: Str)
    requires GoodToken(k, false, rest)
    ensures WellFormed(k)
  {
  }

  lemma {:induction false} GapIsGood(ts: seq<Token>)
    requires AllWellFormed(ts) && Good(ts, false, [])
    ensures Good(WithoutGap(ts), false, [])
  {
    if ts != [] && IsGap(ts[0]) { GapIsGood(ts[1..]); }
  }

  /** cp_unquote yields what the tokens of the string mean, without its comments. */
  lemma {:induction false} UnquoteMeans(ts: seq<Token>)
    requires AllWellFormed(ts) && Good(ts, false, [])
    ensures UnquoteSpec(Text(ts)) == Meaning(Tidy(ts))
  {
    hide Text, Good, Tidied, UncommentSpec, Decode;
    var t := Text(ts);
    assert t + [] == t;
    UncommentIsTidy(t, 0, ts, false, []);
    GapIsGood(ts);
    TidiedIsGood(WithoutGap(ts), false, []);
    var x := Text(Tidy(ts));
    assert x + [] == x;
    AllDecoded(x, 0, Tidy(ts));
  }

  // ---------- bytes in hexadecimal ----------

  /** Two digits for each byte; the flags choose upper or lower case for each digit. */
  function HexText(d: Str, upper: seq<bool>): Str
    requires |upper| == 2 * |d|
  {
    if d == [] then []
    else [DigitByte(Nib(d[0] / 16, upper[0])), DigitByte(Nib(d[0] % 16, upper[1]))] + HexText(d[1..], upper[2..])
  }

  function HexPieces(d: Str, upper: seq<bool>): seq<Angled>
    requires |upper| == 2 * |d|
  {
    if d == [] then []
    else [Digit(Nib(d[0] / 16, upper[0])), Digit(Nib(d[0] % 16, upper[1]))] + HexPieces(d[1..], upper[2..])
  }

  lemma {:induction false} DigitInFront(a: Nib, rest: seq<Angled>, tail: Str)
    requires a.v < 16 && AllNibs(rest) && GoodAngle(rest, tail)
    ensures var items := [Digit(a)] + rest;
            && AllNibs(items) && GoodAngle(items, tail)
            && AngleText(items) == [DigitByte(a)] + AngleText(rest) && Nibbles(items) == [a.v] + Nibbles(rest)
  {
    hide DigitByte;
    assert ([Digit(a)] + rest)[1..] == rest;
  }

  lemma {:induction false} PiecesInFront(a: Nib, b: Nib, rest: seq<Angled>, tail: Str)
    requires a.v < 16 && b.v < 16 && AllNibs(rest) && GoodAngle(rest, tail)
    ensures var items := [Digit(a), Digit(b)] + rest;
            && AllNibs(items) && GoodAngle(items, tail)
            && AngleText(items) == [DigitByte(a), DigitByte(b)] + AngleText(rest)
            && Nibbles(items) == [a.v, b.v] + Nibbles(rest)
  {
    hide DigitByte, AllNibs, GoodAngle, AngleText, Nibbles;
    DigitInFront(b, rest, tail);
    DigitInFront(a, [Digit(b)] + rest, tail);
    assert [Digit(a)] + ([Digit(b)] + rest) == [Digit(a), Digit(b)] + rest;
  }

  lemma {:induction false} HexPiecesAre(d: Str, upper: seq<bool>, tail: Str)
    requires |upper| == 2 * |d|
    ensures var items := HexPieces(d, upper);
            && AllNibs(items) && GoodAngle(items, tail)
            && AngleText(items) == HexText(d, upper) && Pairs(Nibbles(items)) == d
    decreases |d|
  {
    hide AngleText, GoodAngle, Nibbles, Pairs, DigitByte;
    if d == [] {
      NoPieces(tail);
    } else {
      HexPiecesAre(d[1..], upper[2..], tail);
      var rest := HexPieces(d[1..], upper[2..]);
      PiecesInFront(Nib(d[0] / 16, upper[0]), Nib(d[0] % 16, upper[1]), rest, tail);
      PairsStep([d[0] / 16], d[0] % 16, Nibbles(rest));
      assert [d[0] / 16] + ([d[0] % 16] + Nibbles(rest)) == [d[0] / 16, d[0] % 16] + Nibbles(rest);
      assert [] + Nibbles(rest) == Nibbles(rest);
    }
  }

  lemma {:induction false} NoPieces(tail: Str)
    ensures GoodAngle([], tail) && AngleText([]) == [] && Pairs(Nibbles([])) == []
  {
  }

  /** A string of one token that is no gap. */
  lemma {:induction false} OneToken(k: Token)
    requires !IsGap(k) && GoodToken(k, false, [])
    ensures UnquoteSpec(TokenText(k)) == TokenMeaning(k)
  {
    hide TokenText, GoodToken, TokenMeaning, UnquoteSpec;
    GoodIsFormed(k, []);
    TextOfOne(k);
    NothingGood();
    assert Text([]) + [] == [] && [k][1..] == [];
    UnquoteMeans([k]);
    TidiedNext([k], false, []);
    NothingTidied(false, []);
    assert Tidy([k]) == [] + [k] + [] == [k];
    assert Meaning([k]) == TokenMeaning(k) + Meaning([]) && Meaning([]) == [];
  }

  /** A string in double quotes that is one item. */
  lemma {:induction false} OneItem(a: Item)
    requires GoodItem(a, [DQUOTE])
    ensures UnquoteSpec([DQUOTE] + ItemText(a) + [DQUOTE]) == ItemMeaning(a)
  {
    hide ItemText, GoodItem, ItemMeaning, UnquoteSpec;
    assert WellDigited(a) by { GoodIsDigited(a, [DQUOTE]); }
    assert [a][1..] == [];
    assert ItemsText([a]) == ItemText(a) + [] && ItemsText([]) + ([DQUOTE] + []) == [DQUOTE];
    assert GoodItems([a], [DQUOTE] + []);
    OneToken(Double([a]));
    assert ItemText(a) + [] == ItemText(a) && ItemMeaning(a) + [] == ItemMeaning(a);
    assert ItemsMeaning([a]) == ItemMeaning(a) + ItemsMeaning([]) && ItemsMeaning([]) == [];
    assert TokenText(Double([a])) == [DQUOTE] + ItemText(a) + [DQUOTE];
  }

  /** Bytes written as pairs of digits in a backslash-less-than escape are read back, outside of
      quotes and inside double quotes. */
  lemma {:induction false} UnquoteReadsHex(d: Str, upper: seq<bool>)
    requires |upper| == 2 * |d|
    ensures UnquoteSpec([BACKSLASH, LT] + HexText(d, upper) + [GT]) == d
    ensures UnquoteSpec([DQUOTE] + ([BACKSLASH, LT] + HexText(d, upper) + [GT]) + [DQUOTE]) == d
  {
    hide HexText, HexPieces, GoodAngle, AngleText, Pairs, Nibbles, UnquoteSpec;
    HexPiecesAre(d, upper, [GT] + []);
    OneToken(Data(HexPieces(d, upper)));
    HexPiecesAre(d, upper, [GT] + [DQUOTE]);
    OneItem(Binary(HexPieces(d, upper)));
  }

  /** In double quotes backslash, x and two digits stand for the byte. */
  lemma {:induction false} UnquoteReadsHexByte(b: Byte, upper0: bool, upper1: bool)
    ensures UnquoteSpec([DQUOTE, BACKSLASH, 120] +
                        [DigitByte(Nib(b / 16, upper0)), DigitByte(Nib(b % 16, upper1))] + [DQUOTE]) == [b]
  {
    hide UnquoteSpec, DigitByte;
    var ns := [Nib(b / 16, upper0), Nib(b % 16, upper1)];
    TwoDigits(ns);
    OneItem(Hexes(ns));
    var u := DigitText(ns);
    assert [DQUOTE] + ([BACKSLASH, 120] + u) + [DQUOTE] == [DQUOTE, BACKSLASH, 120] + u + [DQUOTE];
  }

  lemma {:induction false} TwoDigits(ns: seq<Nib>)
    requires |ns| == 2 && AllDigits(ns)
    ensures DigitText(ns) == [DigitByte(ns[0]), DigitByte(ns[1])]
    ensures Radix(Values(ns), 16) == ns[0].v * 16 + ns[1].v
  {
    assert ns[1..][1..] == [] && ns[1..][0] == ns[1];
    assert Values(ns[1..]) == [ns[1].v] + [] && DigitText(ns[1..]) == [DigitByte(ns[1])] + [];
    assert Values(ns) == [ns[0].v, ns[1].v];
    assert [ns[0].v, ns[1].v][..1] == [ns[0].v] && [ns[0].v][..0] == [];
    assert Radix([], 16) == 0 && Radix([ns[0].v], 16) == ns[0].v;
  }

  // ---------- arguments ----------

  /** The texts of the arguments with commas between them. */
  function Commas(v: seq<seq<Token>>): Str
    requires forall i :: 0 <= i < |v| ==> AllWellFormed(v[i])
  {
    if v == [] then [] else if |v| == 1 then Text(v[0]) else Text(v[0]) + ([COMMA] + Commas(v[1..]))
  }

  predicate AllArgs(v: seq<seq<Token>>)
    requires forall i :: 0 <= i < |v| ==> AllWellFormed(v[i])
  {
    v == [] || (Good(v[0], true, if |v| == 1 then [] else [COMMA] + Commas(v[1..])) && AllArgs(v[1..]))
  }

  /** The arguments without comments; an empty last one is dropped. */
  function Arguments(v: seq<seq<Token>>): seq<Str>
    requires forall i :: 0 <= i < |v| ==> AllWellFormed(v[i])
  {
    if v == [] then []
    else
      var first := if AllWellFormed(Tidy(v[0])) then Text(Tidy(v[0])) else [];
      if |v| == 1 && first == [] then [] else [first] + Arguments(v[1..])
  }

  /** cp_argvec yields the arguments between the commas that stand outside of quotes and comments. */
  lemma {:induction false} ArgVecMeans(t: Str, p: nat, v: seq<seq<Token>>)
    requires v != [] && (forall i :: 0 <= i < |v| ==> AllWellFormed(v[i])) && AllArgs(v) && Rest(t, p, Commas(v))
    ensures Args(t, p) == Arguments(v)
    decreases |v|
  {
    hide Text, Good, Tidy, UncommentSpec, Rest, Args;
    var tail := if |v| == 1 then [] else [COMMA] + Commas(v[1..]);
    assert Text(v[0]) + [] == Text(v[0]);
    UncommentIsTidy(t, p, v[0], true, tail);
    TidyIsFormed(v[0]);
    PlaceIs(t, p, Text(v[0]) + tail);
    ArgsStep(t, p);
    if |v| > 1 {
      CommaFollows(t, p, Text(v[0]), Commas(v[1..]));
      ArgVecMeans(t, |t| - |tail| + 1, v[1..]);
    }
  }

  lemma {:induction false} TidyIsFormed(ts: seq<Token>)
    requires AllWellFormed(ts)
    ensures AllWellFormed(Tidy(ts))
  {
    hide Tidied;
  }

  lemma {:induction false} ArgsStep(t: Str, p: nat)
    requires p <= |t|
    ensures var u := UncommentSpec(t, p, true);
            Args(t, p) ==
            if p < |t| && (u.0 != [] || u.1 < |t|) then [u.0] + Args(t, u.1 + 1)
            else if p < |t| then Args(t, u.1 + 1) else []
    ensures p == |t| ==> UncommentSpec(t, p, true).0 == []
    ensures Args(t, |t| + 1) == []
  {
  }

  lemma {:induction false} CommaFollows(t: Str, p: nat, u: Str, rest: Str)
    requires Rest(t, p, u + ([COMMA] + rest))
    ensures p < |t| && Rest(t, |t| - |rest|, rest)
  {
    CutAt(t, p, u, [COMMA] + rest);
    First(t, p + |u|, COMMA, rest);
  }

  // ---------- quoting ----------

  /** A text that a terminal shows and in which no variable is expanded: printable bytes, newlines if
      they are allowed, and no dollar sign that a backslash does not precede. */
  predicate Harmless(u: Str, newlines: bool) {
    forall i :: 0 <= i < |u| ==> HarmlessAt(u, i, newlines)
  }

  predicate HarmlessAt(u: Str, i: nat, newlines: bool)
    requires i < |u|
  {
    && (32 <= u[i] < 127 || (newlines && u[i] == NEWLINE))
    && (u[i] == DOLLAR ==> i > 0 && u[i - 1] == BACKSLASH)
  }

  lemma {:induction false} HarmlessJoins(u: Str, v: Str, newlines: bool)
    requires Harmless(u, newlines) && Harmless(v, newlines)
    ensures Harmless(u + v, newlines)
  {
    var w := u + v;
    forall i | 0 <= i < |w|
      ensures HarmlessAt(w, i, newlines)
    {
      if i < |u| { assert HarmlessAt(u, i, newlines); } else { assert HarmlessAt(v, i - |u|, newlines); }
    }
  }

  lemma {:induction false} EscapedHarmless(s: Str, newlines: bool)
    ensures Harmless(Escaped(s, newlines), newlines)
  {
    if s != [] {
      EscapeHarmless(s[0], newlines);
      EscapedHarmless(s[1..], newlines);
      HarmlessJoins(Escape(s[0], newlines), Escaped(s[1..], newlines), newlines);
    }
  }

  lemma {:induction false} EscapeHarmless(b: Byte, newlines: bool)
    ensures Harmless(Escape(b, newlines), newlines)
  {
  }

  /** Whatever the bytes, quoting makes such a text of them. */
  lemma {:induction false} QuoteIsHarmless(s: Str, newlines: bool)
    ensures Harmless(QuoteSpec(s, newlines), newlines)
  {
    hide Escaped;
    EscapedHarmless(s, newlines);
    HarmlessJoins([DQUOTE], Escaped(s, newlines), newlines);
    HarmlessJoins([DQUOTE] + Escaped(s, newlines), [DQUOTE], newlines);
  }
}
