/** The ar archive format (click-dpdk/lib/archive.cc). */
module Archive {
  import opened Bits
  import opened ConfParse

  datatype Element = Element(name: Str, date: int, uid: int, gid: int, mode: int, data: Str) {
    predicate Live() { name != [] }
  }

  const HASH: Byte := 35
  const PLUS: Byte := 43
  const MINUS: Byte := 45
  const ONE: Byte := 49
  const UNDERSCORE: Byte := 95
  const BACKQUOTE: Byte := 96
  /** "!<arch>\n" */
  const MAGIC: Str := [33, 60, 97, 114, 99, 104, 62, 10]

  // ---------- reading numbers ----------

  predicate IsDigit(b: Byte, octal: bool) { 48 <= b && (if octal then b < 56 else b < 58) }

  /** IntArg::span after the sign: where it stops, and the end of the last digit before that.
      Single underscores may separate digits. */
  function Span(f: Str, octal: bool, i: nat, last: int): (r: (nat, int))
    requires i <= |f|
    ensures i <= r.0 <= |f|
    decreases |f| - i
  {
    if i < |f| && f[i] == UNDERSCORE && last == i then Span(f, octal, i + 1, last)
    else if i < |f| && IsDigit(f[i], octal) then Span(f, octal, i + 1, i + 1)
    else (i, last)
  }

  function Scale(v: nat, octal: bool): nat { if octal then v * 8 else v * 10 }

  /** The value of the digits of f between i and end, after the value v. */
  function Value(f: Str, octal: bool, i: nat, end: nat, v: nat): nat
    requires end <= |f|
    decreases end - i
  {
    if i >= end then v
    else if 48 <= f[i] <= 57 then Value(f, octal, i + 1, end, Scale(v, octal) + (f[i] - 48))
    else Value(f, octal, i + 1, end, v)
  }

  /** A signed 32-bit number, saturating. */
  function Clamp(negative: bool, v: int): int {
    if negative then (if v > 0x8000_0000 then -0x8000_0000 else -v)
    else if v >= 0x8000_0000 then 0x7fff_ffff else v
  }

  function SignLength(f: Str): (n: nat)
    ensures n <= |f|
  {
    if f != [] && (f[0] == MINUS || f[0] == PLUS) then 1 else 0
  }

  /** Where cp_integer stops in the field; 0 if it finds no number. */
  function NumberEnd(f: Str, octal: bool): int {
    var first := SignLength(f);
    var r := Span(f, octal, first, first - 1);
    if r.0 != first then r.1 else 0
  }

  /** read_uint on a header field: -1 unless the field is a number that is followed by white space
      or fills it. */
  function Number(f: Str, octal: bool): int {
    var end := NumberEnd(f, octal);
    if 0 < end <= |f| && (end == |f| || IsSpace(f[end])) then
      Clamp(f != [] && f[0] == MINUS, Value(f, octal, 0, end, 0))
    else -1
  }

  // ---------- writing numbers ----------

  function Digits(x: nat, octal: bool): (d: Str)
    ensures |d| > 0
  {
    var q := if octal then x / 8 else x / 10;
    var r := if octal then x % 8 else x % 10;
    if q == 0 then [48 + r] else Digits(q, octal) + [48 + r]
  }

  function Spaces(n: nat): (s: Str)
    ensures |s| == n
  {
    seq(n, i => SPACE)
  }

  /** A text on the left of a column: printf with a minus flag and a width. */
  function Column(t: Str, width: nat): (c: Str)
    ensures |c| == if |t| <= width then width else |t|
  {
    if |t| <= width then t + Spaces(width - |t|) else t
  }

  function Limit(octal: bool, k: nat): nat {
    if k == 0 then 1 else if octal then 8 * Limit(octal, k - 1) else 10 * Limit(octal, k - 1)
  }

  lemma {:induction false} DigitsFit(x: nat, octal: bool, k: nat)
    requires k > 0 && x < Limit(octal, k)
    ensures |Digits(x, octal)| <= k
    decreases k
  {
    var q := if octal then x / 8 else x / 10;
    if q != 0 { DigitsFit(q, octal, k - 1); }
  }

  lemma {:induction false} DigitsAre(x: nat, octal: bool)
    ensures forall i :: 0 <= i < |Digits(x, octal)| ==> IsDigit(Digits(x, octal)[i], octal)
  {
    var q := if octal then x / 8 else x / 10;
    if q != 0 { DigitsAre(q, octal); }
  }

  /** The digits of a number are read as that number, whatever comes after them. */
  lemma {:induction false} ValueOfDigits(x: nat, octal: bool, f: Str)
    requires |Digits(x, octal)| <= |f| && f[..|Digits(x, octal)|] == Digits(x, octal)
    ensures Value(f, octal, 0, |Digits(x, octal)|, 0) == x
  {
    var q := if octal then x / 8 else x / 10;
    var r := if octal then x % 8 else x % 10;
    var n := |Digits(x, octal)|;
    assert f[n - 1] == f[..n][n - 1] == 48 + r;
    if q != 0 {
      assert f[..n - 1] == f[..n][..n - 1] == Digits(q, octal);
      ValueOfDigits(q, octal, f);
      ValueSplits(f, octal, 0, n - 1, 0);
    } else {
      ValueSplits(f, octal, 0, 0, 0);
    }
  }

  lemma {:induction false} ValueSplits(f: Str, octal: bool, i: nat, end: nat, v: nat)
    requires i <= end < |f| && 48 <= f[end] <= 57
    ensures var w := Value(f, octal, i, end, v);
            Value(f, octal, i, end + 1, v) == Scale(w, octal) + (f[end] - 48)
    decreases end - i
  {
    if i < end {
      if 48 <= f[i] <= 57 {
        ValueSplits(f, octal, i + 1, end, Scale(v, octal) + (f[i] - 48));
      } else {
        ValueSplits(f, octal, i + 1, end, v);
      }
    }
  }

  lemma {:induction false} SpanOfDigits(f: Str, octal: bool, i: nat, n: nat, last: int)
    requires i <= n <= |f| && (forall j :: i <= j < n ==> IsDigit(f[j], octal))
    requires n == |f| || f[n] == SPACE
    ensures Span(f, octal, i, last) == (n, if i < n then n else last)
    decreases n - i
  {
    if i < n { SpanOfDigits(f, octal, i + 1, n, i + 1); }
  }

  /** What is written into a column is read back. */
  lemma {:induction false} NumberInvertsColumn(x: nat, octal: bool, width: nat)
    requires |Digits(x, octal)| <= width
    ensures Number(Column(Digits(x, octal), width), octal) == if x < 0x8000_0000 then x else 0x7fff_ffff
  {
    var d := Digits(x, octal);
    var f := Column(d, width);
    DigitsAre(x, octal);
    assert f[..|d|] == d && f[0] == d[0];
    forall j | 0 <= j < |d|
      ensures IsDigit(f[j], octal)
    {
      assert f[j] == d[j];
    }
    SpanOfDigits(f, octal, 0, |d|, -1);
    ValueOfDigits(x, octal, f);
  }

  lemma {:induction false} ValueOfTail(f: Str, octal: bool, i: nat, end: nat, v: nat)
    requires end < |f|
    ensures Value(f, octal, i + 1, end + 1, v) == Value(f[1..], octal, i, end, v)
    decreases end - i
  {
    if i < end {
      ValueOfTail(f, octal, i + 1, end, if 48 <= f[i + 1] <= 57 then Scale(v, octal) + (f[i + 1] - 48) else v);
    }
  }

  /** With a sign before it a number is read back up to the limits of 32 bits, where it stays. */
  lemma {:induction false} SignedNumber(x: nat, octal: bool, width: nat, minus: bool)
    requires |Digits(x, octal)| <= width
    ensures Number([if minus then MINUS else PLUS] + Column(Digits(x, octal), width), octal) ==
            if minus then (if x <= 0x8000_0000 then 0 - x else -0x8000_0000)
            else if x <= 0x7fff_ffff then x else 0x7fff_ffff
  {
    hide Digits;
    var d, c := Digits(x, octal), Column(Digits(x, octal), width);
    var f := [if minus then MINUS else PLUS] + c;
    DigitsAre(x, octal);
    assert f[1..] == c && c[..|d|] == d;
    forall j | 1 <= j < |d| + 1
      ensures IsDigit(f[j], octal)
    {
      assert f[j] == d[j - 1];
    }
    SpanOfDigits(f, octal, 1, |d| + 1, 0);
    ValueOfDigits(x, octal, c);
    ValueOfTail(f, octal, 0, |d|, 0);
  }

  // ---------- writing ----------

  /** The part of a text before a byte. */
  function UpTo(s: Str, b: Byte): Str {
    if s == [] || s[0] == b then [] else [s[0]] + UpTo(s[1..], b)
  }

  predicate HasSpace(s: Str) {
    s != [] && (IsSpace(s[0]) || HasSpace(s[1..]))
  }

  function Unsigned(x: int): nat { x % 0x1_0000_0000 }

  /** The name as it is written: cut at a slash. */
  function WrittenName(e: Element): Str { UpTo(e.name, SLASH) }

  predicate LongName(n: Str) {
    (|n| >= 3 && n[0] == HASH && n[1] == ONE && n[2] == SLASH) || HasSpace(n) || |n| > 14
  }

  function NameColumn(n: Str): Str {
    if LongName(n) then [HASH, ONE, SLASH] + Column(Digits(|n|, false), 13) else Column(UpTo(n, 0), 16)
  }

  function WrittenData(e: Element): Str {
    var n := WrittenName(e);
    (if LongName(n) then n else []) + e.data
  }

  /** The columns that unparse reserves hold the numbers. */
  predicate FitsColumns(e: Element) {
    && Unsigned(e.uid) < 1_000_000 && Unsigned(e.gid) < 1_000_000 && Unsigned(e.mode) < 0x100_0000
    && |WrittenData(e)| < 0x8000_0000
  }

  /** What is printed for a header. */
  function Header(e: Element): (h: Str)
    ensures |h| >= 60
  {
    NameColumn(WrittenName(e)) + Column(Digits(Unsigned(e.date), false), 12)
    + Column(Digits(Unsigned(e.uid), false), 6) + Column(Digits(Unsigned(e.gid), false), 6)
    + Column(Digits(Unsigned(e.mode), true), 8) + Column(Digits(|WrittenData(e)|, false), 10)
    + [BACKQUOTE, NEWLINE]
  }

  /** One member of the archive, filled up to an even length. Of a header that is too long the first
      60 bytes stay: the text is extended by no more, and what is printed past that is overwritten. */
  function Entry(e: Element): Str {
    Header(e)[..60] + WrittenData(e) + (if |WrittenData(e)| % 2 == 1 then [NEWLINE] else [])
  }

  function Entries(ar: seq<Element>): Str {
    if ar == [] then [] else if ar[0].Live() then Entry(ar[0]) + Entries(ar[1..]) else Entries(ar[1..])
  }

  function UnparseSpec(ar: seq<Element>): Str { MAGIC + Entries(ar) }

  lemma {:induction false} UpToFirst(n: Str, b: Byte, rest: Str)
    requires b !in n
    ensures UpTo(n + [b] + rest, b) == n == UpTo(n, b)
  {
    if n != [] {
      UpToFirst(n[1..], b, rest);
      assert (n + [b] + rest)[1..] == n[1..] + [b] + rest;
    }
  }

  /** Of a name with a slash only the part before it is written. */
  lemma {:induction false} SlashCuts(e: Element, n: Str, rest: Str)
    requires SLASH !in n && e.name == n + [SLASH] + rest
    ensures Entry(e) == Entry(e.(name := n))
  {
    hide Digits, Column, NameColumn, UpTo;
    UpToFirst(n, SLASH, rest);
  }

  /** A name in its column ends before a zero byte. */
  lemma {:induction false} ZeroCuts(n: Str, rest: Str)
    requires 0 !in n && !LongName(n + [0] + rest) && !LongName(n)
    ensures NameColumn(n + [0] + rest) == NameColumn(n)
  {
    hide UpTo, LongName;
    UpToFirst(n, 0, rest);
  }

  // ---------- parsing ----------

  /** Where a name ends that starts at i. */
  function NameEnd(s: Str, i: nat, end: nat): (r: nat)
    requires i <= end <= |s|
    ensures i <= r <= end
    decreases end - i
  {
    if i < end && s[i] != SLASH && !IsSpace(s[i]) then NameEnd(s, i + 1, end) else i
  }

  /** What one turn of the loop of parse yields: an error, or where the next section starts, the
      long names, and the elements found. */
  datatype Section = Bad | Good(next: nat, longNames: Str, found: seq<Element>)

  predicate IsLongNames(h: Str)
    requires |h| == 60
  {
    h[0] == SLASH && h[1] == SLASH && IsSpace(h[2])
  }

  predicate IsGnuName(h: Str)
    requires |h| == 60
  {
    h[0] == SLASH && IsDigit(h[1], false)
  }

  predicate IsBsdName(h: Str)
    requires |h| == 60
  {
    !IsGnuName(h) && h[0] == HASH && h[1] == ONE && h[2] == SLASH && IsDigit(h[3], false)
  }

  /** The name that the header alone, or the long names section, gives. */
  function HeaderName(h: Str, longNames: Str): Str
    requires |h| == 60
  {
    if IsGnuName(h) then
      var offset := Number(h[1..16], false);
      if longNames == [] || offset < 0 || offset >= |longNames| then []
      else longNames[offset..NameEnd(longNames, offset, |longNames|)]
    else if IsBsdName(h) then []
    else h[..NameEnd(h, 0, 16)]
  }

  function ElementOf(h: Str, name: Str, data: Str): Element
    requires |h| == 60
  {
    Element(name, Number(h[16..28], false), Number(h[28..34], false), Number(h[34..40], false),
            Number(h[40..48], true), data)
  }

  /** One section with header h and the rest of the file after it. */
  function ParseSection(h: Str, body: Str, start: nat, longNames: Str): (r: Section)
    requires |h| == 60
    ensures r.Good? ==> r.next >= start + 60
  {
    var size := Number(h[48..58], false);
    if h[58] != BACKQUOTE || h[59] != NEWLINE then Bad
    else if size < 0 || size > |body| then Bad
    else
      var next := start + 60 + size + size % 2;
      if IsLongNames(h) then Good(next, body[..size], [])
      else
        var bsd := if IsBsdName(h) then Number(h[3..16], false) else 0;
        if bsd <= 0 then Good(next, longNames, [ElementOf(h, HeaderName(h, longNames), body[..size])])
        else if size < bsd then Bad
        else Good(next, longNames, [ElementOf(h, body[..bsd], body[bsd..size])])
  }

  /** The loop of parse from position s on: whether it succeeds, and the elements. */
  function ParseFrom(str: Str, s: nat, longNames: Str): (bool, seq<Element>)
    decreases |str| - s
  {
    if s + 60 > |str| then (s == |str|, [])
    else
      match ParseSection(str[s..s + 60], str[s + 60..], s, longNames)
      case Bad => (false, [])
      case Good(next, names, found) =>
        var rest := ParseFrom(str, next, names);
        (rest.0, found + rest.1)
  }

  function ParseSpec(str: Str): (bool, seq<Element>) {
    if |str| <= 8 || str[..8] != MAGIC then (false, []) else ParseFrom(str, 8, [])
  }

  // ---------- the round trip ----------

  /** A member with a proper name and numbers that are not negative. */
  ghost predicate Named(e: Element) {
    && SLASH !in e.name && 0 !in e.name
    && 0 <= e.date < 0x8000_0000 && 0 <= e.uid < 0x8000_0000 && 0 <= e.gid < 0x8000_0000 && 0 <= e.mode < 0x8000_0000
    && |e.name| + |e.data| < 0x8000_0000
  }

  /** A member that the format can represent. */
  ghost predicate Representable(e: Element) {
    Named(e) && e.uid < 1_000_000 && e.gid < 1_000_000 && e.mode < 0x100_0000
  }

  /** It is one that fits the columns. */
  lemma {:induction false} RepresentableFits(e: Element)
    requires Named(e)
    ensures Representable(e) <==> FitsColumns(e)
    ensures |WrittenData(e)| < 0x8000_0000
  {
    UpToLength(e.name, SLASH);
  }

  lemma {:induction false} UpToAbsent(s: Str, b: Byte)
    requires b !in s
    ensures UpTo(s, b) == s
  {
    if s != [] { UpToAbsent(s[1..], b); }
  }

  lemma {:induction false} NoSpace(s: Str, i: nat)
    requires !HasSpace(s) && i < |s|
    ensures !IsSpace(s[i])
  {
    if i > 0 { NoSpace(s[1..], i - 1); }
  }

  lemma {:induction false} Limits()
    ensures Limit(false, 6) == 1_000_000 && Limit(true, 8) == 0x100_0000
    ensures Limit(false, 10) == 10_000_000_000 && Limit(false, 12) == 1_000_000_000_000
            && Limit(false, 13) == 10_000_000_000_000
  {
    assert Limit(false, 3) == 1000;
    assert Limit(true, 4) == 4096;
    assert Limit(false, 9) == 1_000_000_000;
  }

  /** A number that fits its column is read back. */
  lemma {:induction false} ColumnReads(x: nat, octal: bool, width: nat)
    requires width > 0 && x < Limit(octal, width) && x < 0x8000_0000
    ensures |Column(Digits(x, octal), width)| == width
    ensures Number(Column(Digits(x, octal), width), octal) == x
    ensures IsDigit(Column(Digits(x, octal), width)[0], octal)
  {
    hide Number, Digits;
    DigitsFit(x, octal, width);
    NumberInvertsColumn(x, octal, width);
    DigitsAre(x, octal);
  }

  /** Where the columns of a header stand. */
  lemma {:induction false} HeaderSlices(a: Str, b: Str, c: Str, d: Str, e: Str, f: Str, g: Str)
    requires |a| == 16 && |b| == 12 && |c| == |d| == 6 && |e| == 8 && |f| == 10 && |g| == 2
    ensures var h := a + b + c + d + e + f + g;
            && |h| == 60 && h[..16] == a && h[16..28] == b && h[28..34] == c && h[34..40] == d && h[40..48] == e
            && h[48..58] == f && h[58] == g[0] && h[59] == g[1]
  {
  }

  /** The name column has 16 bytes, and the name can be told from it or follows the header. */
  lemma {:induction false} NameReads(n: Str, h: Str)
    requires n != [] && SLASH !in n && 0 !in n && |n| < 0x8000_0000
    requires |h| == 60 && h[..16] == NameColumn(n)
    ensures !IsLongNames(h) && !IsGnuName(h)
    ensures LongName(n) ==> IsBsdName(h) && Number(h[3..16], false) == |n|
    ensures !LongName(n) ==> !IsBsdName(h) && h[..NameEnd(h, 0, 16)] == n
  {
    hide Number, Digits, HasSpace, NameEnd, UpTo;
    var col := NameColumn(n);
    assert h[0] == col[0] && h[1] == col[1] && h[2] == col[2] && h[3] == col[3] by {
      forall i | 0 <= i < 16
        ensures h[i] == col[i]
      {
        assert h[..16][i] == h[i];
      }
    }
    if LongName(n) {
      Limits();
      ColumnReads(|n|, false, 13);
      var c := Column(Digits(|n|, false), 13);
      assert col[3..] == c && h[3..16] == h[..16][3..];
      assert h[3] == c[0];
    } else {
      UpToAbsent(n, 0);
      ShortNameEnds(n, h, 0);
      assert col[..|n|] == n && h[..|n|] == h[..16][..|n|];
      assert col[2] in n || col[2] == SPACE;
    }
  }

  lemma {:induction false} NameColumnLength(n: Str)
    requires n != [] && 0 !in n && |n| < 0x8000_0000
    ensures |NameColumn(n)| == 16
  {
    hide Number, Digits, HasSpace, UpTo;
    if LongName(n) {
      Limits();
      ColumnReads(|n|, false, 13);
    } else {
      UpToAbsent(n, 0);
    }
  }

  lemma {:induction false} ShortNameEnds(n: Str, h: Str, i: nat)
    requires i <= |n| <= 14 && !HasSpace(n) && SLASH !in n
    requires |h| == 60 && h[..16] == n + Spaces(16 - |n|)
    ensures NameEnd(h, i, 16) == |n|
    decreases |n| - i
  {
    assert h[i] == h[..16][i];
    if i < |n| {
      NoSpace(n, i);
      assert h[i] == n[i] && n[i] in n;
      ShortNameEnds(n, h, i + 1);
    }
  }

  lemma {:induction false} HeaderReads(e: Element)
    requires e.Live() && Representable(e)
    ensures WrittenName(e) == e.name && |Header(e)| == 60
    ensures var h := Header(e);
            && h[..16] == NameColumn(e.name) && h[58] == BACKQUOTE && h[59] == NEWLINE
            && Number(h[48..58], false) == |WrittenData(e)|
            && forall name: Str, data: Str :: ElementOf(h, name, data) == e.(name := name, data := data)
  {
    hide Number, Digits, NameColumn, UpTo, LongName;
    UpToAbsent(e.name, SLASH);
    NameColumnLength(e.name);
    Limits();
    ColumnReads(e.date, false, 12);
    ColumnReads(e.uid, false, 6);
    ColumnReads(e.gid, false, 6);
    ColumnReads(e.mode, true, 8);
    ColumnReads(|WrittenData(e)|, false, 10);
    HeaderSlices(NameColumn(e.name), Column(Digits(e.date, false), 12), Column(Digits(e.uid, false), 6),
                 Column(Digits(e.gid, false), 6), Column(Digits(e.mode, true), 8),
                 Column(Digits(|WrittenData(e)|, false), 10), [BACKQUOTE, NEWLINE]);
  }

  /** One member that was written is read back, whatever comes after it. */
  lemma {:induction false} SectionReads(e: Element, rest: Str, start: nat, longNames: Str)
    requires e.Live() && Representable(e)
    ensures |Header(e)| == 60 && |Entry(e)| == 60 + |WrittenData(e)| + |WrittenData(e)| % 2
    ensures ParseSection(Header(e), Entry(e)[60..] + rest, start, longNames) == Good(start + |Entry(e)|, longNames, [e])
  {
    hide Number, Header, NameColumn, LongName, NameEnd, UpTo, IsLongNames, IsGnuName, IsBsdName;
    HeaderReads(e);
    var h, n, w := Header(e), e.name, WrittenData(e);
    NameReads(n, h);
    var body := Entry(e)[60..] + rest;
    assert body[..|w|] == w;
    assert ElementOf(h, e.name, e.data) == e;
    if LongName(n) {
      assert body[..|n|] == n && body[|n|..|w|] == e.data;
    } else {
      assert w == e.data;
    }
  }

  /** A negative date is written as a number that is too large for the parser, which reads the largest
      one that it can. */
  lemma {:induction false} NegativeDate(e: Element)
    requires -0x8000_0000 <= e.date < 0 && |WrittenData(e)| < 0x8000_0000
    ensures Number(Header(e)[16..28], false) == 0x7fff_ffff
  {
    hide Digits, Number, Column, NameColumn, WrittenName, WrittenData;
    Limits();
    NameColumnKeeps(e);
    assert Unsigned(e.date) == e.date + 0x1_0000_0000;
    ColumnKeeps(Unsigned(e.date), false, 12);
    DigitsFit(Unsigned(e.date), false, 12);
    NumberInvertsColumn(Unsigned(e.date), false, 12);
    SecondColumn(NameColumn(WrittenName(e)), Column(Digits(Unsigned(e.date), false), 12),
                 Column(Digits(Unsigned(e.uid), false), 6) + Column(Digits(Unsigned(e.gid), false), 6)
                 + Column(Digits(Unsigned(e.mode), true), 8) + Column(Digits(|WrittenData(e)|, false), 10)
                 + [BACKQUOTE, NEWLINE]);
    assert Header(e) == NameColumn(WrittenName(e)) + Column(Digits(Unsigned(e.date), false), 12)
                        + (Column(Digits(Unsigned(e.uid), false), 6) + Column(Digits(Unsigned(e.gid), false), 6)
                           + Column(Digits(Unsigned(e.mode), true), 8) + Column(Digits(|WrittenData(e)|, false), 10)
                           + [BACKQUOTE, NEWLINE]);
  }

  lemma {:induction false} SecondColumn(a: Str, b: Str, rest: Str)
    requires |a| == 16 && |b| == 12
    ensures (a + b + rest)[16..28] == b
  {
  }

  // ---------- numbers that are too wide ----------

  lemma {:induction false} DigitsGrow(x: nat, octal: bool, k: nat)
    requires x >= Limit(octal, k)
    ensures |Digits(x, octal)| > k
  {
    var q := if octal then x / 8 else x / 10;
    if k > 0 { DigitsGrow(q, octal, k - 1); }
  }

  /** A column keeps its width exactly for numbers below its limit. */
  lemma {:induction false} ColumnKeeps(x: nat, octal: bool, width: nat)
    requires width > 0
    ensures |Column(Digits(x, octal), width)| == width <==> x < Limit(octal, width)
  {
    hide Digits, Limit;
    if x < Limit(octal, width) { DigitsFit(x, octal, width); } else { DigitsGrow(x, octal, width); }
  }

  /** A header has 60 bytes exactly if its numbers fit their columns. */
  lemma {:induction false} HeaderLength(e: Element)
    requires |WrittenData(e)| < 0x8000_0000
    ensures |Header(e)| == 60 <==> FitsColumns(e)
  {
    hide Digits, HasSpace, UpTo, Limit, Column;
    Limits();
    ColumnKeeps(Unsigned(e.date), false, 12);
    ColumnKeeps(Unsigned(e.uid), false, 6);
    ColumnKeeps(Unsigned(e.gid), false, 6);
    ColumnKeeps(Unsigned(e.mode), true, 8);
    ColumnKeeps(|WrittenData(e)|, false, 10);
    NameColumnKeeps(e);
  }

  lemma {:induction false} NameColumnKeeps(e: Element)
    requires |WrittenData(e)| < 0x8000_0000
    ensures |NameColumn(WrittenName(e))| == 16
  {
    hide Digits, HasSpace, UpTo;
    var n := WrittenName(e);
    Limits();
    if LongName(n) {
      DigitsFit(|n|, false, 13);
    } else {
      UpToLength(n, 0);
    }
  }

  lemma {:induction false} UpToLength(s: Str, b: Byte)
    ensures |UpTo(s, b)| <= |s|
  {
    if s != [] { UpToLength(s[1..], b); }
  }

  /** A column has digits and spaces only. */
  lemma {:induction false} NoBackquote(x: nat, octal: bool, width: nat)
    ensures BACKQUOTE !in Column(Digits(x, octal), width)
  {
    hide Digits;
    DigitsAre(x, octal);
    var d := Digits(x, octal);
    forall i | 0 <= i < |d|
      ensures d[i] != BACKQUOTE
    {
      assert IsDigit(d[i], octal);
    }
  }

  /** Of a header with a number that is too wide the magic number is cut off. */
  lemma {:induction false} WideLosesMagic(e: Element)
    requires |WrittenData(e)| < 0x8000_0000 && !FitsColumns(e)
    ensures Header(e)[58] != BACKQUOTE
  {
    hide Digits, Column, NameColumn, FitsColumns;
    HeaderLength(e);
    NameColumnKeeps(e);
    var a := NameColumn(WrittenName(e));
    var b := Column(Digits(Unsigned(e.date), false), 12);
    var c := Column(Digits(Unsigned(e.uid), false), 6);
    var d := Column(Digits(Unsigned(e.gid), false), 6);
    var m := Column(Digits(Unsigned(e.mode), true), 8);
    var z := Column(Digits(|WrittenData(e)|, false), 10);
    NoBackquote(Unsigned(e.date), false, 12);
    NoBackquote(Unsigned(e.uid), false, 6);
    NoBackquote(Unsigned(e.gid), false, 6);
    NoBackquote(Unsigned(e.mode), true, 8);
    NoBackquote(|WrittenData(e)|, false, 10);
    var fields := b + c + d + m + z;
    assert BACKQUOTE !in fields;
    assert Header(e) == a + fields + [BACKQUOTE, NEWLINE];
    assert Header(e)[58] == fields[58 - 16];
  }

  /** So the parser stops at it, whatever comes after. */
  lemma {:induction false} WideIsBad(e: Element, body: Str, start: nat, longNames: Str)
    requires |WrittenData(e)| < 0x8000_0000 && !FitsColumns(e)
    ensures ParseSection(Header(e)[..60], body, start, longNames) == Bad
  {
    hide Header;
    WideLosesMagic(e);
  }

  // ---------- whole archives ----------

  function LiveOf(ar: seq<Element>): seq<Element> {
    if ar == [] then [] else if ar[0].Live() then [ar[0]] + LiveOf(ar[1..]) else LiveOf(ar[1..])
  }

  /** The live members up to the first one that does not fit its columns, and whether there is no
      such member. */
  function ReadBack(ar: seq<Element>): (bool, seq<Element>) {
    if ar == [] then (true, [])
    else if !ar[0].Live() then ReadBack(ar[1..])
    else if FitsColumns(ar[0]) then (ReadBack(ar[1..]).0, [ar[0]] + ReadBack(ar[1..]).1)
    else (false, [])
  }

  lemma {:induction false} ReadBackAll(ar: seq<Element>)
    ensures ReadBack(ar).0 <==> forall e :: e in ar && e.Live() ==> FitsColumns(e)
    ensures ReadBack(ar).0 ==> ReadBack(ar).1 == LiveOf(ar)
  {
    hide FitsColumns;
    if ar != [] {
      ReadBackAll(ar[1..]);
      assert ar == [ar[0]] + ar[1..];
    }
  }

  lemma {:induction false} EntriesRead(before: Str, ar: seq<Element>, longNames: Str)
    requires forall e :: e in ar && e.Live() ==> Named(e)
    ensures ParseFrom(before + Entries(ar), |before|, longNames) == ReadBack(ar)
    decreases |ar|
  {
    hide ParseFrom, ParseSection, Entry, Header, Named, FitsColumns, Representable;
    if ar == [] {
      assert before + Entries(ar) == before;
      NothingLeft(before, longNames);
    } else if !ar[0].Live() {
      EntriesRead(before, ar[1..], longNames);
    } else {
      var e, rest := ar[0], Entries(ar[1..]);
      RepresentableFits(e);
      EntryStarts(e);
      EntryStands(before, Entry(e), rest);
      if FitsColumns(e) {
        SectionReads(e, rest, |before|, longNames);
        assert Header(e)[..60] == Header(e);
        EntriesRead(before + Entry(e), ar[1..], longNames);
        FromSection(before + (Entry(e) + rest), |before|, longNames, e, |before| + |Entry(e)|);
      } else {
        WideIsBad(e, Entry(e)[60..] + rest, |before|, longNames);
        FromBad(before + (Entry(e) + rest), |before|, longNames);
      }
    }
  }

  lemma {:induction false} FromBad(str: Str, s: nat, longNames: Str)
    requires s + 60 <= |str| && ParseSection(str[s..s + 60], str[s + 60..], s, longNames) == Bad
    ensures ParseFrom(str, s, longNames) == (false, [])
  {
    hide ParseSection;
  }

  lemma {:induction false} NothingLeft(str: Str, longNames: Str)
    ensures ParseFrom(str, |str|, longNames) == (true, [])
  {
  }

  lemma {:induction false} FromSection(str: Str, s: nat, longNames: Str, e: Element, next: nat)
    requires s + 60 <= |str|
    requires ParseSection(str[s..s + 60], str[s + 60..], s, longNames) == Good(next, longNames, [e])
    ensures ParseFrom(str, s, longNames) == (ParseFrom(str, next, longNames).0, [e] + ParseFrom(str, next, longNames).1)
  {
    hide ParseSection;
  }

  lemma {:induction false} EntryStarts(e: Element)
    ensures |Entry(e)| >= 60 && Entry(e)[..60] == Header(e)[..60]
  {
    hide Header;
  }

  lemma {:induction false} EntryStands(before: Str, entry: Str, rest: Str)
    requires |entry| >= 60
    ensures before + (entry + rest) == before + entry + rest
    ensures var str := before + (entry + rest);
            str[|before|..|before| + 60] == entry[..60] && str[|before| + 60..] == entry[60..] + rest
  {
  }

  /** Parsing an archive that was written gives its live members up to the first one that does not
      fit its columns, and an error if there is one. An archive without live members is written but
      not accepted. */
  lemma {:induction false} ParseOfUnparse(ar: seq<Element>)
    requires forall e :: e in ar && e.Live() ==> Named(e)
    ensures ParseSpec(UnparseSpec(ar)) == (LiveOf(ar) != [] && ReadBack(ar).0, ReadBack(ar).1)
  {
    hide ParseFrom, Entry, ReadBack, Named;
    EntriesRead(MAGIC, ar, []);
    NoEntries(ar);
    assert UnparseSpec(ar)[..8] == MAGIC;
    if LiveOf(ar) == [] { NothingRead(ar); }
  }

  lemma {:induction false} NothingRead(ar: seq<Element>)
    requires LiveOf(ar) == []
    ensures ReadBack(ar) == (true, [])
  {
    if ar != [] { NothingRead(ar[1..]); }
  }

  /** So it gives all of them, in order, exactly if all fit. */
  lemma {:induction false} ParseInvertsUnparse(ar: seq<Element>)
    requires forall e :: e in ar && e.Live() ==> Named(e)
    ensures ParseSpec(UnparseSpec(ar)) == (LiveOf(ar) != [], LiveOf(ar)) <==>
            forall e :: e in ar && e.Live() ==> FitsColumns(e)
  {
    hide ParseSpec, UnparseSpec, FitsColumns, Named;
    ParseOfUnparse(ar);
    ReadBackAll(ar);
    if LiveOf(ar) == [] { NothingRead(ar); }
  }

  lemma {:induction false} NoEntries(ar: seq<Element>)
    ensures Entries(ar) == [] <==> LiveOf(ar) == []
  {
    hide Entry;
    if ar != [] {
      NoEntries(ar[1..]);
      EntryStarts(ar[0]);
    }
  }

  // ---------- archives that are cut off ----------

  /** Some whole number of the entries take k bytes. */
  predicate IsBoundary(ar: seq<Element>, k: nat) {
    if k == 0 then true
    else if ar == [] then false
    else if !ar[0].Live() then IsBoundary(ar[1..], k)
    else k >= |Entry(ar[0])| && IsBoundary(ar[1..], k - |Entry(ar[0])|)
  }

  lemma {:induction false} FromShort(str: Str, s: nat, longNames: Str)
    requires s <= |str| < s + 60
    ensures ParseFrom(str, s, longNames).0 <==> s == |str|
  {
  }

  lemma {:induction false} FromBeyond(str: Str, s: nat, longNames: Str)
    requires s > |str|
    ensures !ParseFrom(str, s, longNames).0
  {
  }

  /** Of one entry at least the last byte is missing. */
  lemma {:induction false} CutEntry(before: Str, e: Element, k: nat, longNames: Str)
    requires e.Live() && Representable(e) && 0 < k < |Entry(e)|
    ensures !ParseFrom(before + Entry(e)[..k], |before|, longNames).0
  {
    hide ParseFrom, Number, Entry, Header, NameColumn, LongName, NameEnd, UpTo, IsLongNames, IsGnuName, IsBsdName;
    var str := before + Entry(e)[..k];
    if k < 60 {
      FromShort(str, |before|, longNames);
    } else {
      EntryStarts(e);
      HeaderReads(e);
      CutStands(before, Entry(e), k);
      assert Header(e)[..60] == Header(e);
      if k - 60 < |WrittenData(e)| {
        FromBad(str, |before|, longNames);
      } else {
        PadIsMissing(e, k, |before|, longNames);
        FromSection(str, |before|, longNames, e, |before| + |Entry(e)|);
        FromBeyond(str, |before| + |Entry(e)|, longNames);
      }
    }
  }

  lemma {:induction false} CutStands(before: Str, entry: Str, k: nat)
    requires 60 <= k <= |entry|
    ensures var str := before + entry[..k];
            str[|before|..|before| + 60] == entry[..60] && str[|before| + 60..] == entry[60..k]
  {
  }

  lemma {:induction false} PadIsMissing(e: Element, k: nat, start: nat, longNames: Str)
    requires e.Live() && Representable(e) && 60 + |WrittenData(e)| <= k < |Entry(e)|
    ensures |Header(e)| == 60
    ensures ParseSection(Header(e), Entry(e)[60..k], start, longNames) == Good(start + |Entry(e)|, longNames, [e])
  {
    hide Number, Header, NameColumn, LongName, NameEnd, UpTo, IsLongNames, IsGnuName, IsBsdName;
    HeaderReads(e);
    var h, n, w := Header(e), e.name, WrittenData(e);
    NameReads(n, h);
    assert Entry(e)[60..k] == w;
    assert ElementOf(h, e.name, e.data) == e;
    if LongName(n) {
      assert w[..|n|] == n && w[|n|..|w|] == e.data && w[..|w|] == w;
    } else {
      assert w == e.data && w[..|w|] == w;
    }
  }

  lemma {:induction false} CutEntries(before: Str, ar: seq<Element>, k: nat, longNames: Str)
    requires k <= |Entries(ar)| && forall e :: e in ar && e.Live() ==> Representable(e)
    ensures ParseFrom(before + Entries(ar)[..k], |before|, longNames).0 <==> IsBoundary(ar, k)
    decreases |ar|
  {
    hide ParseFrom, ParseSection, Entry, Header, Named, Representable;
    var str := before + Entries(ar)[..k];
    if k == 0 {
      assert str == before;
      NothingLeft(before, longNames);
    } else if ar != [] && !ar[0].Live() {
      CutEntries(before, ar[1..], k, longNames);
    } else if ar != [] {
      var e, rest := ar[0], Entries(ar[1..]);
      var t := Entry(e);
      if k < |t| {
        assert (t + rest)[..k] == t[..k];
        CutEntry(before, e, k, longNames);
      } else {
        var more := rest[..k - |t|];
        assert (t + rest)[..k] == t + more;
        SectionReads(e, more, |before|, longNames);
        EntryStarts(e);
        assert Header(e)[..60] == Header(e);
        EntryStands(before, t, more);
        FromSection(before + (t + more), |before|, longNames, e, |before| + |t|);
        CutEntries(before + t, ar[1..], k - |t|, longNames);
      }
    }
  }

  /** An archive that was cut off is accepted exactly if it was cut after some of its members. */
  lemma {:induction false} CutIsRejected(ar: seq<Element>, k: nat)
    requires 8 < k <= |UnparseSpec(ar)| && forall e :: e in ar && e.Live() ==> Representable(e)
    ensures ParseSpec(UnparseSpec(ar)[..k]).0 <==> IsBoundary(ar, k - 8)
  {
    hide ParseFrom, Entries, Representable, IsBoundary;
    assert UnparseSpec(ar)[..k] == MAGIC + Entries(ar)[..k - 8];
    CutEntries(MAGIC, ar, k - 8, []);
  }

  // ---------- the loops ----------

  method ReadUint(f: Str, octal: bool) returns (x: int)
    ensures x == Number(f, octal)
  {
    var first := SignLength(f);
    var i := first;
    var last: int := first - 1;
    while i < |f| && ((f[i] == UNDERSCORE && last == i) || IsDigit(f[i], octal))
      invariant first <= i <= |f|
      invariant Span(f, octal, i, last) == Span(f, octal, first, first - 1)
    {
      if !(f[i] == UNDERSCORE && last == i) { last := i + 1; }
      i := i + 1;
    }
    var end := if i != first then last else 0;
    if !(0 < end <= |f| && (end == |f| || IsSpace(f[end]))) { return -1; }
    var v: nat := 0;
    i := 0;
    while i < end
      invariant 0 <= i <= end
      invariant Value(f, octal, i, end, v) == Value(f, octal, 0, end, 0)
    {
      if 48 <= f[i] <= 57 { v := Scale(v, octal) + (f[i] - 48); }
      i := i + 1;
    }
    x := Clamp(f != [] && f[0] == MINUS, v);
  }

  method ScanName(s: Str, begin: nat, end: nat) returns (x: nat)
    requires begin <= end <= |s|
    ensures x == NameEnd(s, begin, end)
  {
    x := begin;
    while x < end && s[x] != SLASH && !IsSpace(s[x])
      invariant begin <= x <= end && NameEnd(s, x, end) == NameEnd(s, begin, end)
    {
      x := x + 1;
    }
  }

  /** One turn of the loop of parse. */
  method ReadSection(h: Str, body: Str, start: nat, longNames: Str) returns (r: Section)
    requires |h| == 60
    ensures r == ParseSection(h, body, start, longNames)
  {
    hide Number, NameEnd;
    if h[58] != BACKQUOTE || h[59] != NEWLINE { return Bad; }
    if h[0] == SLASH && h[1] == SLASH && IsSpace(h[2]) {
      var size := ReadUint(h[48..58], false);
      if size < 0 || size > |body| { return Bad; }
      return Good(start + 60 + size + size % 2, body[..size], []);
    }
    var name, bsd := ReadName(h, longNames);
    var date := ReadUint(h[16..28], false);
    var uid := ReadUint(h[28..34], false);
    var gid := ReadUint(h[34..40], false);
    var mode := ReadUint(h[40..48], true);
    var size := ReadUint(h[48..58], false);
    if size < 0 || size > |body| { return Bad; }
    var data := body[..size];
    if bsd > 0 {
      if size < bsd { return Bad; }
      name, data := body[..bsd], body[bsd..size];
    }
    r := Good(start + 60 + size + size % 2, longNames, [Element(name, date, uid, gid, mode, data)]);
  }

  method ReadName(h: Str, longNames: Str) returns (name: Str, bsd: int)
    requires |h| == 60
    ensures name == HeaderName(h, longNames)
    ensures bsd == if IsBsdName(h) then Number(h[3..16], false) else 0
  {
    hide Number, NameEnd;
    name, bsd := [], 0;
    if h[0] == SLASH && IsDigit(h[1], false) {
      var offset := ReadUint(h[1..16], false);
      if !(longNames == [] || offset < 0 || offset >= |longNames|) {
        var end := ScanName(longNames, offset, |longNames|);
        name := longNames[offset..end];
      }
    } else if h[0] == HASH && h[1] == ONE && h[2] == SLASH && IsDigit(h[3], false) {
      bsd := ReadUint(h[3..16], false);
    } else {
      var x := ScanName(h, 0, 16);
      name := h[..x];
    }
  }

  /** ArchiveElement::parse; the elements found before an error are kept. */
  method Parse(str: Str) returns (ok: bool, ar: seq<Element>)
    ensures (ok, ar) == ParseSpec(str)
  {
    ar := [];
    if |str| <= 8 || str[..8] != MAGIC { return false, ar; }
    hide ParseSection;
    var s: nat := 8;
    var longNames: Str := [];
    ghost var whole := ParseFrom(str, 8, []);
    assert ar + whole.1 == whole.1;
    while s + 60 <= |str|
      invariant whole == (ParseFrom(str, s, longNames).0, ar + ParseFrom(str, s, longNames).1)
      decreases |str| - s
    {
      var section := ReadSection(str[s..s + 60], str[s + 60..], s, longNames);
      match section
      case Bad =>
        assert ar + [] == ar;
        return false, ar;
      case Good(next, names, found) =>
        Regrouped(ar, found, ParseFrom(str, next, names).1);
        ar := ar + found;
        s := next;
        longNames := names;
    }
    assert ar + [] == ar;
    ok := s == |str|;
  }

  lemma {:induction false} Regrouped(a: seq<Element>, b: seq<Element>, c: seq<Element>)
    ensures a + (b + c) == a + b + c
  {
  }

  /** The loop over a name in unparse: the length up to a slash, and whether it has white space. */
  method CheckName(name: Str) returns (nlen: nat, spaced: bool)
    ensures nlen <= |name| && name[..nlen] == UpTo(name, SLASH) && spaced == HasSpace(UpTo(name, SLASH))
  {
    hide UpTo, HasSpace;
    nlen, spaced := 0, false;
    assert name[0..] == name;
    assert [] + UpTo(name, SLASH) == UpTo(name, SLASH);
    while nlen < |name| && name[nlen] != SLASH
      invariant nlen <= |name|
      invariant UpTo(name, SLASH) == name[..nlen] + UpTo(name[nlen..], SLASH)
      invariant HasSpace(UpTo(name, SLASH)) <==> spaced || HasSpace(UpTo(name[nlen..], SLASH))
    {
      NameNext(name, nlen);
      if IsSpace(name[nlen]) { spaced := true; }
      nlen := nlen + 1;
    }
    NameEnds(name, nlen);
  }

  lemma {:induction false} NameNext(name: Str, i: nat)
    requires i < |name| && name[i] != SLASH
    ensures name[..i] + UpTo(name[i..], SLASH) == name[..i + 1] + UpTo(name[i + 1..], SLASH)
    ensures HasSpace(UpTo(name[i..], SLASH)) <==> IsSpace(name[i]) || HasSpace(UpTo(name[i + 1..], SLASH))
  {
    var s := name[i..];
    assert s[1..] == name[i + 1..];
    assert UpTo(s, SLASH) == [s[0]] + UpTo(s[1..], SLASH);
    assert UpTo(s, SLASH)[1..] == UpTo(s[1..], SLASH);
    hide UpTo;
    assert name[..i + 1] == name[..i] + [name[i]];
  }

  lemma {:induction false} NameEnds(name: Str, i: nat)
    requires i <= |name| && (i == |name| || name[i] == SLASH)
    ensures name[..i] + UpTo(name[i..], SLASH) == name[..i] && !HasSpace(UpTo(name[i..], SLASH))
  {
  }

  /** The numbers of a header as they are printed. */
  function Fields(e: Element): (f: Str)
    ensures |f| >= 44
  {
    Column(Digits(Unsigned(e.date), false), 12)
    + Column(Digits(Unsigned(e.uid), false), 6) + Column(Digits(Unsigned(e.gid), false), 6)
    + Column(Digits(Unsigned(e.mode), true), 8) + Column(Digits(|WrittenData(e)|, false), 10)
    + [BACKQUOTE, NEWLINE]
  }

  lemma {:induction false} HeaderParts(e: Element)
    requires |WrittenData(e)| < 0x8000_0000
    ensures NameColumn(WrittenName(e)) + Fields(e)[..44] == Header(e)[..60]
  {
    hide Digits, NameColumn, Column, WrittenName, WrittenData;
    NameColumnKeeps(e);
    assert Header(e) == NameColumn(WrittenName(e)) + Fields(e);
  }

  /** The name, in its column or after the header. */
  method WriteName(e: Element) returns (column: Str, after: Str)
    ensures column == NameColumn(WrittenName(e)) && after + e.data == WrittenData(e)
  {
    hide Digits, HasSpace, UpTo;
    var nlen, mustLong := CheckName(e.name);
    var n := e.name[..nlen];
    if (nlen >= 3 && n[0] == HASH && n[1] == ONE && n[2] == SLASH) || mustLong || nlen > 14 {
      column := [HASH, ONE, SLASH] + Column(Digits(nlen, false), 13);
      after := n;
    } else {
      column := Column(UpTo(n, 0), 16);
      after := [];
    }
  }

  /** One live member. The numbers are printed into a space of 44 bytes. */
  method WriteElement(e: Element) returns (text: Str)
    requires |WrittenData(e)| < 0x8000_0000
    ensures text == Entry(e)
    ensures |text| == 60 + |WrittenData(e)| + |WrittenData(e)| % 2
  {
    hide Digits, Column, Header, NameColumn, WrittenName, WrittenData;
    var column, after := WriteName(e);
    var wrote := |e.data| + |after|;
    var fields := Column(Digits(Unsigned(e.date), false), 12)
      + Column(Digits(Unsigned(e.uid), false), 6) + Column(Digits(Unsigned(e.gid), false), 6)
      + Column(Digits(Unsigned(e.mode), true), 8) + Column(Digits(wrote, false), 10) + [BACKQUOTE, NEWLINE];
    HeaderParts(e);
    text := column + fields[..44];
    text := text + (after + e.data);
    if wrote % 2 == 1 { text := text + [NEWLINE]; } else { assert text + [] == text; }
  }

  /** ArchiveElement::unparse. Its test whether as much was written as it counted succeeds. */
  method Unparse(ar: seq<Element>) returns (text: Str)
    requires forall e :: e in ar && e.Live() ==> |WrittenData(e)| < 0x8000_0000
    ensures text == UnparseSpec(ar)
  {
    hide Entry, WrittenData;
    text := MAGIC;
    var wantSize := 8;
    assert ar[0..] == ar;
    for i := 0 to |ar|
      invariant text + Entries(ar[i..]) == UnparseSpec(ar)
      invariant |text| == wantSize
    {
      var e := ar[i];
      assert ar[i..][1..] == ar[i + 1..];
      if e.Live() {
        var entry := WriteElement(e);
        text := text + entry;
        wantSize := wantSize + 60 + |WrittenData(e)| + |WrittenData(e)| % 2;
      }
    }
    assert text + [] == text;
    assert wantSize == |text|;
  }
}
