/** Archives that other programs write and click-dpdk/lib/archive.cc reads. GNU ar puts long names into
    a section of their own, the one named by two slashes, and a member's name column then holds the
    position of its name there; BSD ar writes the length of a long name and puts the name before the
    data. Bytes are written as numbers here. */
module ForeignArchive {
  import opened Bits
  import opened ConfParse
  import opened Archive

  /** Where a member's name is: in the table, before its data, or in its own column. */
  datatype Place = Tabled | BeforeData | InColumn

  datatype Member = Member(e: Element, place: Place)

  /** Numbers that fit their columns, and a name that is not empty. Only before the data may it have
      slashes and white space. */
  predicate Fits(m: Member) {
    && m.e.name != [] && |m.e.name| + |m.e.data| < 0x8000_0000
    && (!m.place.BeforeData? ==> SLASH !in m.e.name && !HasSpace(m.e.name))
    && (m.place.InColumn? ==> |m.e.name| <= 15)
    && 0 <= m.e.date < 0x8000_0000 && 0 <= m.e.uid < 1_000_000 && 0 <= m.e.gid < 1_000_000
    && 0 <= m.e.mode < 0x100_0000
  }

  predicate AllFit(ms: seq<Member>) { forall m :: m in ms ==> Fits(m) }

  // ---------- writing ----------

  /** How the table goes on after a name of m. */
  function Row(m: Member): Str { if m.place.Tabled? then m.e.name + [47, 10] else [] }

  function Rows(ms: seq<Member>): Str { if ms == [] then [] else Row(ms[0]) + Rows(ms[1..]) }

  function Padding(s: Str): Str { if |s| % 2 == 1 then [10] else [] }

  function Table(ms: seq<Member>): Str { Rows(ms) + Padding(Rows(ms)) }

  function TableHeader(size: nat): Str {
    [47, 47] + Spaces(46) + Column(Digits(size, false), 10) + [96, 10]
  }

  function MemberHeader(e: Element, column: Str, size: nat): Str {
    column + Column(Digits(Unsigned(e.date), false), 12)
    + Column(Digits(Unsigned(e.uid), false), 6) + Column(Digits(Unsigned(e.gid), false), 6)
    + Column(Digits(Unsigned(e.mode), true), 8) + Column(Digits(size, false), 10) + [96, 10]
  }

  /** The name column; offset is where the name stands in the table. */
  function NameField(m: Member, offset: nat): Str {
    match m.place
    case Tabled => [47] + Column(Digits(offset, false), 15)
    case BeforeData => [35, 49, 47] + Column(Digits(|m.e.name|, false), 13)
    case InColumn => Column(m.e.name + [47], 16)
  }

  function Body(m: Member): Str { (if m.place.BeforeData? then m.e.name else []) + m.e.data }

  function MemberText(m: Member, offset: nat): Str {
    MemberHeader(m.e, NameField(m, offset), |Body(m)|) + Body(m) + Padding(Body(m))
  }

  function Members(ms: seq<Member>, offset: nat): Str {
    if ms == [] then [] else MemberText(ms[0], offset) + Members(ms[1..], offset + |Row(ms[0])|)
  }

  function Written(ms: seq<Member>): Str {
    [33, 60, 97, 114, 99, 104, 62, 10] + (TableHeader(|Table(ms)|) + Table(ms) + Members(ms, 0))
  }

  function Elements(ms: seq<Member>): seq<Element> {
    if ms == [] then [] else [ms[0].e] + Elements(ms[1..])
  }

  // ---------- names ----------

  /** A name that stands before a slash is found, up to that slash. */
  lemma {:induction false} NameStops(s: Str, i: nat, n: Str, end: nat)
    requires SLASH !in n && !HasSpace(n) && i + |n| < end <= |s| && s[i..i + |n|] == n && s[i + |n|] == SLASH
    ensures NameEnd(s, i, end) == i + |n|
    decreases |n|
  {
    if n != [] {
      assert s[i] == s[i..i + |n|][0] == n[0] && n[0] in n;
      assert s[i + 1..i + 1 + |n[1..]|] == s[i..i + |n|][1..] == n[1..];
      NameStops(s, i + 1, n[1..], end);
    }
  }

  lemma {:induction false} TabledName(h: Str, n: Str, offset: nat, table: Str)
    requires |h| == 60 && h[..16] == [SLASH] + Column(Digits(offset, false), 15)
    requires SLASH !in n && !HasSpace(n) && offset < 0x8000_0000
    requires offset + |n| < |table| && table[offset..offset + |n|] == n && table[offset + |n|] == SLASH
    ensures IsGnuName(h) && !IsLongNames(h) && HeaderName(h, table) == n
  {
    hide Number, Digits, HasSpace, NameEnd, Column;
    Limits();
    LimitGrows();
    ColumnReads(offset, false, 15);
    var c := Column(Digits(offset, false), 15);
    assert h[0] == h[..16][0] && h[1] == h[..16][1] == c[0];
    assert h[1..16] == h[..16][1..] == c;
    NameStops(table, offset, n, |table|);
  }

  lemma {:induction false} LimitGrows()
    ensures Limit(false, 15) == 1_000_000_000_000_000
  {
    Limits();
  }

  lemma {:induction false} ColumnName(h: Str, n: Str, table: Str)
    requires n != [] && SLASH !in n && !HasSpace(n) && |n| <= 15
    requires |h| == 60 && h[..16] == Column(n + [SLASH], 16)
    ensures !IsLongNames(h) && !IsBsdName(h) && HeaderName(h, table) == n
  {
    hide NameEnd;
    var c := Column(n + [SLASH], 16);
    assert c[..|n|] == n && c[|n|] == SLASH;
    assert h[..|n|] == h[..16][..|n|] && h[|n|] == h[..16][|n|];
    forall i | 0 <= i < 16
      ensures h[i] == c[i]
    {
      assert h[i] == h[..16][i];
    }
    assert h[0] == n[0] && n[0] in n;
    assert |n| > 2 ==> h[2] == n[2] && n[2] in n;
    NameStops(h, 0, n, 16);
  }

  lemma {:induction false} NameBeforeData(h: Str, n: Str)
    requires n != [] && |n| < 0x8000_0000
    requires |h| == 60 && h[..16] == [35, 49, 47] + Column(Digits(|n|, false), 13)
    ensures !IsLongNames(h) && IsBsdName(h) && Number(h[3..16], false) == |n|
  {
    hide Number, Digits, Column;
    Limits();
    ColumnReads(|n|, false, 13);
    var c := Column(Digits(|n|, false), 13);
    assert h[0] == h[..16][0] && h[1] == h[..16][1] && h[2] == h[..16][2] && h[3] == h[..16][3] == c[0];
    assert h[3..16] == h[..16][3..] == c;
  }

  // ---------- sections ----------

  lemma {:induction false} TableHeaderReads(size: nat)
    requires size < 0x8000_0000
    ensures var h := TableHeader(size);
            && |h| == 60 && IsLongNames(h) && h[58] == BACKQUOTE && h[59] == NEWLINE
            && Number(h[48..58], false) == size
  {
    hide Number, Digits, Column;
    Limits();
    ColumnReads(size, false, 10);
    var a, c := [47, 47] + Spaces(46), Column(Digits(size, false), 10);
    assert TableHeader(size)[..48] == a && TableHeader(size)[48..58] == c;
    assert a[2] == SPACE;
  }

  /** The table is read and kept. */
  lemma {:induction false} TableReads(table: Str, rest: Str, start: nat)
    requires |table| < 0x8000_0000 && |table| % 2 == 0
    ensures |TableHeader(|table|)| == 60
    ensures ParseSection(TableHeader(|table|), table + rest, start, []) == Good(start + 60 + |table|, table, [])
  {
    hide TableHeader, IsLongNames, Number;
    TableHeaderReads(|table|);
    assert (table + rest)[..|table|] == table;
  }

  lemma {:induction false} MemberHeaderReads(m: Member, column: Str, size: nat)
    requires Fits(m) && |column| == 16 && size < 0x8000_0000
    ensures var h := MemberHeader(m.e, column, size);
            && |h| == 60 && h[..16] == column && h[58] == BACKQUOTE && h[59] == NEWLINE
            && Number(h[48..58], false) == size && ElementOf(h, m.e.name, m.e.data) == m.e
  {
    hide Number, Digits;
    var e := m.e;
    Limits();
    ColumnReads(e.date, false, 12);
    ColumnReads(e.uid, false, 6);
    ColumnReads(e.gid, false, 6);
    ColumnReads(e.mode, true, 8);
    ColumnReads(size, false, 10);
    HeaderSlices(column, Column(Digits(e.date, false), 12), Column(Digits(e.uid, false), 6),
                 Column(Digits(e.gid, false), 6), Column(Digits(e.mode, true), 8),
                 Column(Digits(size, false), 10), [96, 10]);
  }

  /** The name of a member stands in the table where its column says. */
  predicate InTable(m: Member, offset: nat, table: Str) {
    m.place.Tabled? ==>
      && offset + |m.e.name| < |table| < 0x8000_0000
      && table[offset..offset + |m.e.name|] == m.e.name && table[offset + |m.e.name|] == SLASH
  }

  lemma {:induction false} NameFieldLength(m: Member, offset: nat)
    requires Fits(m) && (m.place.Tabled? ==> offset < 0x8000_0000)
    ensures |NameField(m, offset)| == 16
  {
    hide Digits;
    Limits();
    LimitGrows();
    if m.place.Tabled? { ColumnReads(offset, false, 15); }
    if m.place.BeforeData? { ColumnReads(|m.e.name|, false, 13); }
  }

  /** A member is read under its own name. */
  lemma {:induction false} MemberReads(m: Member, offset: nat, rest: Str, start: nat, table: Str)
    requires Fits(m) && InTable(m, offset, table)
    ensures |MemberText(m, offset)| == 60 + |Body(m)| + |Body(m)| % 2
    ensures var t := MemberText(m, offset);
            ParseSection(t[..60], t[60..] + rest, start, table) == Good(start + |t|, table, [m.e])
  {
    hide Number, MemberHeader, NameField, NameEnd, Column, HasSpace, Digits;
    hide IsLongNames, IsGnuName, IsBsdName, HeaderName, ElementOf;
    var column, w := NameField(m, offset), Body(m);
    NameFieldLength(m, offset);
    MemberHeaderReads(m, column, |w|);
    var h := MemberHeader(m.e, column, |w|);
    NameIsRead(m, offset, h, table);
    var t := MemberText(m, offset);
    assert t[..60] == h && t[60..] == w + Padding(w);
    assert (t[60..] + rest)[..|w|] == w;
    if m.place.BeforeData? {
      var n := m.e.name;
      assert (t[60..] + rest)[..|n|] == n && (t[60..] + rest)[|n|..|w|] == m.e.data;
    } else {
      assert w == m.e.data;
    }
  }

  lemma {:induction false} NameIsRead(m: Member, offset: nat, h: Str, table: Str)
    requires Fits(m) && InTable(m, offset, table) && |h| == 60 && h[..16] == NameField(m, offset)
    ensures !IsLongNames(h) && (IsBsdName(h) <==> m.place.BeforeData?)
    ensures if m.place.BeforeData? then Number(h[3..16], false) == |m.e.name| else HeaderName(h, table) == m.e.name
  {
    hide Number, NameEnd, Column, HasSpace, IsLongNames, HeaderName;
    match m.place
    case Tabled => TabledName(h, m.e.name, offset, table);
    case BeforeData => NameBeforeData(h, m.e.name);
    case InColumn => ColumnName(h, m.e.name, table);
  }

  // ---------- whole archives ----------

  /** The names of the members that are left stand at the offset in the table. */
  lemma {:induction false} FirstTabled(ms: seq<Member>, before: Str, after: Str)
    requires ms != []
    ensures var table := before + Rows(ms) + after;
            && (|table| < 0x8000_0000 ==> InTable(ms[0], |before|, table))
            && table == (before + Row(ms[0])) + Rows(ms[1..]) + after
  {
    hide Rows;
    var n, rest := ms[0].e.name, Rows(ms[1..]) + after;
    RowsSplit(ms);
    assert before + (Row(ms[0]) + Rows(ms[1..])) + after == before + Row(ms[0]) + Rows(ms[1..]) + after;
    if ms[0].place.Tabled? {
      assert before + (n + [SLASH, NEWLINE]) + Rows(ms[1..]) + after == before + n + ([SLASH, NEWLINE] + rest);
      InTheMiddle(before, n, [SLASH, NEWLINE] + rest);
    }
  }

  lemma {:induction false} RowsSplit(ms: seq<Member>)
    requires ms != []
    ensures Rows(ms) == Row(ms[0]) + Rows(ms[1..])
  {
  }

  lemma {:induction false} InTheMiddle(before: Str, n: Str, rest: Str)
    requires rest != []
    ensures var t := before + n + rest;
            t[|before|..|before| + |n|] == n && t[|before| + |n|] == rest[0]
  {
  }

  lemma {:induction false} MembersRead(text: Str, ms: seq<Member>, before: Str, after: Str, table: Str)
    requires AllFit(ms) && table == before + Rows(ms) + after && |table| < 0x8000_0000
    ensures ParseFrom(text + Members(ms, |before|), |text|, table) == (true, Elements(ms))
    decreases |ms|
  {
    hide ParseFrom, ParseSection, MemberText, Fits, Rows, Row, InTable;
    if ms == [] {
      assert text + Members(ms, |before|) == text;
      NothingLeft(text, table);
    } else {
      var m, t := ms[0], MemberText(ms[0], |before|);
      var rest := Members(ms[1..], |before + Row(m)|);
      FirstTabled(ms, before, after);
      MemberReads(m, |before|, rest, |text|, table);
      EntryStands(text, t, rest);
      MembersRead(text + t, ms[1..], before + Row(m), after, table);
      FromSection(text + (t + rest), |text|, table, m.e, |text| + |t|);
    }
  }

  /** Every archive in this form is read with all its members, in order and under their names. */
  lemma {:induction false} ParseReadsForeign(ms: seq<Member>)
    requires AllFit(ms) && |Table(ms)| < 0x8000_0000
    ensures ParseSpec(Written(ms)) == (true, Elements(ms))
  {
    hide ParseFrom, ParseSection, TableHeader, Members, Rows, Elements, Fits;
    var table := Table(ms);
    var h, rest := TableHeader(|table|), Members(ms, 0);
    TableReads(table, rest, 8);
    var magic: Str := [33, 60, 97, 114, 99, 104, 62, 10];
    assert h + table + rest == (h + table) + rest;
    EntryStands(magic, h + table, rest);
    var str := Written(ms);
    assert str[8..68] == h && str[68..] == table + rest;
    TableIsKept(str, table);
    assert table == [] + Rows(ms) + Padding(Rows(ms));
    MembersRead(magic + (h + table), ms, [], Padding(Rows(ms)), table);
    assert str[..8] == magic;
  }

  lemma {:induction false} TableIsKept(str: Str, table: Str)
    requires |str| >= 68 && ParseSection(str[8..68], str[68..], 8, []) == Good(68 + |table|, table, [])
    ensures ParseFrom(str, 8, []) == ParseFrom(str, 68 + |table|, table)
  {
    hide ParseSection;
    var rest := ParseFrom(str, 68 + |table|, table);
    assert [] + rest.1 == rest.1;
  }
}
