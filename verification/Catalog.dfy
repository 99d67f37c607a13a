/**
 The catalog of a database and its text form.
 */
module Catalog {
  import opened Common
  import opened CatalogText

  datatype ColMeta = ColMeta(tab: string, name: string, colType: int, len: int, offset: int, index: bool)

  datatype IndexMeta = IndexMeta(tab: string, totLen: int, colNum: int, cols: seq<ColMeta>)

  datatype TabMeta = TabMeta(name: string, cols: seq<ColMeta>, indexes: seq<IndexMeta>)

  datatype DbMeta = DbMeta(name: string, tabs: map<string, TabMeta>)

  // ---- Printable catalogs -------------------------------------------------------------------------------

  ghost predicate ColOk(col: ColMeta) {
    IsWord(col.tab) && IsWord(col.name)
  }

  /** The number of columns is noted correctly. */
  ghost predicate IndexOk(index: IndexMeta) {
    IsWord(index.tab) && index.colNum == |index.cols| && forall col <- index.cols :: ColOk(col)
  }

  ghost predicate TabOk(tab: TabMeta) {
    IsWord(tab.name) && (forall col <- tab.cols :: ColOk(col)) && forall index <- tab.indexes :: IndexOk(index)
  }

  /** Every table is filed under its name. */
  ghost predicate DbOk(db: DbMeta) {
    IsWord(db.name) && forall t <- db.tabs :: TabOk(db.tabs[t]) && db.tabs[t].name == t
  }

  // ---- Printing -----------------------------------------------------------------------------------------

  function ColText(col: ColMeta): string {
    col.tab + (" " + col.name + (" " + IntText(col.colType) + (" " + IntText(col.len) + (" " + IntText(col.offset) +
      (" " + (if col.index then "1" else "0"))))))
  }

  function Lines(n: nat): (gaps: seq<string>)
    ensures |gaps| == n && forall i :: 0 <= i < n ==> gaps[i] == "\n"
  {
    seq(n, _ => "\n")
  }

  function ColTexts(cols: seq<ColMeta>): (texts: seq<string>)
    ensures |texts| == |cols| && forall i :: 0 <= i < |cols| ==> texts[i] == ColText(cols[i])
  {
    seq(|cols|, i requires 0 <= i < |cols| => ColText(cols[i]))
  }

  function IndexText(index: IndexMeta): string {
    index.tab + (" " + IntText(index.totLen) +
      (" " + IntText(index.colNum) + Spread(Lines(|index.cols|), ColTexts(index.cols))))
  }

  function IndexTexts(indexes: seq<IndexMeta>): (texts: seq<string>)
    ensures |texts| == |indexes| && forall i :: 0 <= i < |indexes| ==> texts[i] == IndexText(indexes[i])
  {
    seq(|indexes|, i requires 0 <= i < |indexes| => IndexText(indexes[i]))
  }

  /** A table without the line end that closes it. */
  function TabText(tab: TabMeta): string {
    tab.name + ("\n" + IntText(|tab.cols|) + (Spread(Lines(|tab.cols|), ColTexts(tab.cols)) +
      ("\n" + IntText(|tab.indexes|) + Spread(Lines(|tab.indexes|), IndexTexts(tab.indexes)))))
  }

  /** The line ends before each table: every table but the first follows an empty line. */
  function Gaps(n: nat): (gaps: seq<string>)
    ensures |gaps| == n && forall i :: 0 <= i < n ==> gaps[i] == if i == 0 then "\n" else "\n\n"
  {
    seq(n, i => if i == 0 then "\n" else "\n\n")
  }

  function TabTexts(db: DbMeta, order: seq<string>): (texts: seq<string>)
    requires forall t <- order :: t in db.tabs
    ensures |texts| == |order|
    ensures forall i :: 0 <= i < |order| ==> order[i] in db.tabs && texts[i] == TabText(db.tabs[order[i]])
  {
    seq(|order|, i requires 0 <= i < |order| => assert order[i] in order; TabText(db.tabs[order[i]]))
  }

  /** The catalog with its tables in the given order. */
  function DbText(db: DbMeta, order: seq<string>): string
    requires forall t <- order :: t in db.tabs
  {
    db.name + ("\n" + IntText(|order|) +
      (Spread(Gaps(|order|), TabTexts(db, order)) + if order == [] then "\n" else "\n\n"))
  }

  // ---- Reading ------------------------------------------------------------------------------------------

  function ReadBool(s: string): Option<(bool, string)> {
    var i := ReadInt(s);
    if i.None? || (i.value.0 != 0 && i.value.0 != 1) then None else Some((i.value.0 == 1, i.value.1))
  }

  function ReadCol(s: string): Option<(ColMeta, string)> {
    var tab := ReadWord(s);
    if tab.None? then None
    else
      var name := ReadWord(tab.value.1);
      if name.None? then None
      else
        var colType := ReadInt(name.value.1);
        if colType.None? then None
        else
          var len := ReadInt(colType.value.1);
          if len.None? then None
          else
            var offset := ReadInt(len.value.1);
            if offset.None? then None
            else
              var index := ReadBool(offset.value.1);
              if index.None? then None
              else
                var col := ColMeta(tab.value.0, name.value.0, colType.value.0, len.value.0, offset.value.0,
                                   index.value.0);
                Some((col, index.value.1))
  }

  function ReadIndex(s: string): Option<(IndexMeta, string)> {
    var tab := ReadWord(s);
    if tab.None? then None
    else
      var totLen := ReadInt(tab.value.1);
      if totLen.None? then None
      else
        var colNum := ReadInt(totLen.value.1);
        if colNum.None? then None
        else
          var cols := ReadMany(if colNum.value.0 < 0 then 0 else colNum.value.0, colNum.value.1, ReadCol);
          if cols.None? then None
          else Some((IndexMeta(tab.value.0, totLen.value.0, colNum.value.0, cols.value.0), cols.value.1))
  }

  function ReadTab(s: string): Option<(TabMeta, string)> {
    var name := ReadWord(s);
    if name.None? then None
    else
      var n := ReadInt(name.value.1);
      if n.None? || n.value.0 < 0 then None
      else
        var cols := ReadMany(n.value.0, n.value.1, ReadCol);
        if cols.None? then None
        else
          var m := ReadInt(cols.value.1);
          if m.None? || m.value.0 < 0 then None
          else
            var indexes := ReadMany(m.value.0, m.value.1, ReadIndex);
            if indexes.None? then None
            else Some((TabMeta(name.value.0, cols.value.0, indexes.value.0), indexes.value.1))
  }

  /** Files tables under their names; a later table replaces an earlier one of the same name. */
  function Filed(tabs: seq<TabMeta>): map<string, TabMeta> {
    if tabs == [] then map[] else Filed(tabs[..|tabs| - 1])[tabs[|tabs| - 1].name := tabs[|tabs| - 1]]
  }

  function ReadDb(s: string): Option<DbMeta> {
    var name := ReadWord(s);
    if name.None? then None
    else
      var n := ReadInt(name.value.1);
      if n.None? || n.value.0 < 0 then None
      else
        var tabs := ReadMany(n.value.0, n.value.1, ReadTab);
        if tabs.None? then None else Some(DbMeta(name.value.0, Filed(tabs.value.0)))
  }

  // ---- Round trips --------------------------------------------------------------------------------------

  lemma ColBack(col: ColMeta)
    requires ColOk(col)
    ensures GivesBack(ReadCol, ColText(col), col)
  {
    forall b, s | Blank(b) && Ends(s)
      ensures ReadCol(b + ColText(col) + s) == Some((col, s))
    {
      ColBackHere(b, col, s);
    }
  }

  lemma ColBackHere(b: string, col: ColMeta, s: string)
    requires ColOk(col) && Blank(b) && Ends(s)
    ensures ReadCol(b + ColText(col) + s) == Some((col, s))
  {
    hide ReadWord, ReadInt, IntText, IsWord;
    var t5 := " " + (if col.index then "1" else "0") + s;
    var t4 := " " + IntText(col.offset) + t5;
    var t3 := " " + IntText(col.len) + t4;
    var t2 := " " + IntText(col.colType) + t3;
    var t1 := " " + col.name + t2;
    assert b + ColText(col) + s == b + col.tab + t1;
    WordBack(b, col.tab, t1);
    WordBack(" ", col.name, t2);
    IntBack(" ", col.colType, t3);
    IntBack(" ", col.len, t4);
    IntBack(" ", col.offset, t5);
    BoolBack(col.index, s);
  }

  lemma BoolBack(v: bool, s: string)
    requires Ends(s)
    ensures ReadBool(" " + (if v then "1" else "0") + s) == Some((v, s))
  {
    assert IntText(0) == "0" && IntText(1) == "1";
    IntBack(" ", if v then 1 else 0, s);
  }

  lemma ColsBack(cols: seq<ColMeta>, s: string)
    requires (forall col <- cols :: ColOk(col)) && Ends(s)
    ensures ReadMany(|cols|, Spread(Lines(|cols|), ColTexts(cols)) + s, ReadCol) == Some((cols, s))
    ensures Ends(Spread(Lines(|cols|), ColTexts(cols)) + s)
  {
    hide ColText, ColOk;
    forall i | 0 <= i < |cols|
      ensures GivesBack(ReadCol, ColTexts(cols)[i], cols[i])
    {
      ColBack(cols[i]);
    }
    ManyBack(Lines(|cols|), ColTexts(cols), cols, ReadCol, s);
  }

  lemma IndexBack(index: IndexMeta)
    requires IndexOk(index)
    ensures GivesBack(ReadIndex, IndexText(index), index)
  {
    forall b, s | Blank(b) && Ends(s)
      ensures ReadIndex(b + IndexText(index) + s) == Some((index, s))
    {
      IndexBackHere(b, index, s);
    }
  }

  lemma IndexBackHere(b: string, index: IndexMeta, s: string)
    requires IndexOk(index) && Blank(b) && Ends(s)
    ensures ReadIndex(b + IndexText(index) + s) == Some((index, s))
  {
    hide ReadWord, ReadInt, IntText, IsWord, Spread, ReadMany;
    var t3 := Spread(Lines(|index.cols|), ColTexts(index.cols)) + s;
    var t2 := " " + IntText(index.colNum) + t3;
    var t1 := " " + IntText(index.totLen) + t2;
    ColsBack(index.cols, s);
    assert b + IndexText(index) + s == b + index.tab + t1;
    WordBack(b, index.tab, t1);
    IntBack(" ", index.totLen, t2);
    IntBack(" ", index.colNum, t3);
  }

  lemma IndexesBack(indexes: seq<IndexMeta>, s: string)
    requires (forall index <- indexes :: IndexOk(index)) && Ends(s)
    ensures ReadMany(|indexes|, Spread(Lines(|indexes|), IndexTexts(indexes)) + s, ReadIndex) == Some((indexes, s))
    ensures Ends(Spread(Lines(|indexes|), IndexTexts(indexes)) + s)
  {
    hide IndexText, IndexOk;
    forall i | 0 <= i < |indexes|
      ensures GivesBack(ReadIndex, IndexTexts(indexes)[i], indexes[i])
    {
      IndexBack(indexes[i]);
    }
    ManyBack(Lines(|indexes|), IndexTexts(indexes), indexes, ReadIndex, s);
  }

  lemma TabBack(tab: TabMeta)
    requires TabOk(tab)
    ensures GivesBack(ReadTab, TabText(tab), tab)
  {
    forall b, s | Blank(b) && Ends(s)
      ensures ReadTab(b + TabText(tab) + s) == Some((tab, s))
    {
      TabBackHere(b, tab, s);
    }
  }

  lemma TabBackHere(b: string, tab: TabMeta, s: string)
    requires TabOk(tab) && Blank(b) && Ends(s)
    ensures ReadTab(b + TabText(tab) + s) == Some((tab, s))
  {
    hide ReadWord, ReadInt, IntText, IsWord, Spread, ReadMany;
    var t4 := Spread(Lines(|tab.indexes|), IndexTexts(tab.indexes)) + s;
    var t3 := "\n" + IntText(|tab.indexes|) + t4;
    var t2 := Spread(Lines(|tab.cols|), ColTexts(tab.cols)) + t3;
    var t1 := "\n" + IntText(|tab.cols|) + t2;
    IndexesBack(tab.indexes, s);
    ColsBack(tab.cols, t3);
    assert b + TabText(tab) + s == b + tab.name + t1;
    WordBack(b, tab.name, t1);
    IntBack("\n", |tab.cols|, t2);
    IntBack("\n", |tab.indexes|, t4);
  }

  ghost function TabsOf(db: DbMeta, order: seq<string>): (tabs: seq<TabMeta>)
    requires forall t <- order :: t in db.tabs
    ensures |tabs| == |order| && forall i :: 0 <= i < |order| ==> order[i] in db.tabs && tabs[i] == db.tabs[order[i]]
  {
    seq(|order|, i requires 0 <= i < |order| => assert order[i] in order; db.tabs[order[i]])
  }

  /** Filing the listed tables gives the part of the catalog that is listed. */
  lemma {:induction false} FiledBack(db: DbMeta, order: seq<string>)
    requires DbOk(db) && forall t <- order :: t in db.tabs
    ensures Filed(TabsOf(db, order)) == map t | t in order :: db.tabs[t]
  {
    if order != [] {
      var n := |order| - 1;
      assert order[n] in order && TabsOf(db, order)[..n] == TabsOf(db, order[..n]);
      FiledBack(db, order[..n]);
      assert forall t :: t in order <==> t in order[..n] || t == order[n];
    }
  }

  /** Reading what was printed gives the same catalog back, in whatever order its tables were printed. */
  lemma CatalogBack(db: DbMeta, order: seq<string>)
    requires DbOk(db) && forall t :: t in order <==> t in db.tabs
    ensures ReadDb(DbText(db, order)) == Some(db)
  {
    hide ReadWord, ReadInt, IntText, IsWord, Spread, ReadMany, TabText, TabOk;
    var tabs := TabsOf(db, order);
    forall i | 0 <= i < |tabs|
      ensures GivesBack(ReadTab, TabTexts(db, order)[i], tabs[i])
    {
      TabBack(tabs[i]);
    }
    var tail := if order == [] then "\n" else "\n\n";
    ManyBack(Gaps(|order|), TabTexts(db, order), tabs, ReadTab, tail);
    var t2 := Spread(Gaps(|order|), TabTexts(db, order)) + tail;
    var t1 := "\n" + IntText(|order|) + t2;
    assert DbText(db, order) == "" + db.name + t1;
    WordBack("", db.name, t1);
    IntBack("\n", |order|, t2);
    FiledBack(db, order);
    assert (map t | t in order :: db.tabs[t]) == db.tabs;
  }

  // ---- The printing loops -------------------------------------------------------------------------------

  lemma SpreadNext(gaps: seq<string>, texts: seq<string>, k: nat)
    requires |gaps| == |texts| && k < |texts|
    ensures Spread(gaps[..k + 1], texts[..k + 1]) == Spread(gaps[..k], texts[..k]) + gaps[k] + texts[k]
  {
    assert gaps[..k + 1][..k] == gaps[..k] && texts[..k + 1][..k] == texts[..k];
  }

  method PrintIndex(index: IndexMeta) returns (os: string)
    ensures os == IndexText(index)
  {
    hide ColText;
    os := index.tab + (" " + IntText(index.totLen) + (" " + IntText(index.colNum)));
    ghost var head, gaps, texts := os, Lines(|index.cols|), ColTexts(index.cols);
    for i := 0 to |index.cols|
      invariant os == head + Spread(gaps[..i], texts[..i])
    {
      SpreadNext(gaps, texts, i);
      os := os + "\n" + ColText(index.cols[i]);
    }
    assert gaps[..|gaps|] == gaps && texts[..|texts|] == texts;
  }

  /** One more text on its line, after the line end that the one before it has left. */
  lemma LineMore(head: string, gaps: seq<string>, texts: seq<string>, k: nat, close: string)
    requires |gaps| == |texts| && k < |texts|
    ensures head + Spread(gaps[..k], texts[..k]) + gaps[k] + (texts[k] + close) ==
            head + Spread(gaps[..k + 1], texts[..k + 1]) + close
  {
    hide Spread;
    SpreadNext(gaps, texts, k);
    var init := Spread(gaps[..k], texts[..k]);
    assert head + init + gaps[k] + (texts[k] + close) == head + (init + gaps[k] + texts[k]) + close;
  }

  lemma AllLines(head: string, gaps: seq<string>, texts: seq<string>)
    requires |gaps| == |texts|
    ensures Spread(gaps[..|gaps|], texts[..|texts|]) == Spread(gaps, texts)
    ensures head + Spread(gaps[..0], texts[..0]) == head
  {
    assert gaps[..|gaps|] == gaps && texts[..|texts|] == texts;
  }

  method PrintCols(cols: seq<ColMeta>, head: string) returns (os: string)
    ensures os == head + Spread(Lines(|cols|), ColTexts(cols)) + "\n"
  {
    hide ColText, Spread;
    ghost var gaps, texts := Lines(|cols|), ColTexts(cols);
    os := head + "\n";
    AllLines(head, gaps, texts);
    for i := 0 to |cols|
      invariant os == head + Spread(gaps[..i], texts[..i]) + "\n"
    {
      LineMore(head, gaps, texts, i, "\n");
      os := os + (ColText(cols[i]) + "\n");
    }
  }

  method PrintIndexes(indexes: seq<IndexMeta>, head: string) returns (os: string)
    ensures os == head + Spread(Lines(|indexes|), IndexTexts(indexes)) + "\n"
  {
    hide IndexText, Spread;
    ghost var gaps, texts := Lines(|indexes|), IndexTexts(indexes);
    os := head + "\n";
    AllLines(head, gaps, texts);
    for i := 0 to |indexes|
      invariant os == head + Spread(gaps[..i], texts[..i]) + "\n"
    {
      LineMore(head, gaps, texts, i, "\n");
      var text := PrintIndex(indexes[i]);
      os := os + (text + "\n");
    }
  }

  method PrintTab(tab: TabMeta) returns (os: string)
    ensures os == TabText(tab) + "\n"
  {
    hide IntText, Spread;
    os := PrintCols(tab.cols, tab.name + "\n" + IntText(|tab.cols|));
    os := PrintIndexes(tab.indexes, os + IntText(|tab.indexes|));
  }

  method PrintDb(db: DbMeta, order: seq<string>) returns (os: string)
    requires forall t <- order :: t in db.tabs
    ensures os == DbText(db, order)
  {
    hide TabText, IntText, Spread;
    var head := db.name + "\n" + IntText(|order|);
    ghost var gaps, texts := Gaps(|order|), TabTexts(db, order);
    os := head + "\n";
    AllLines(head, gaps, texts);
    for i := 0 to |order|
      invariant os == head + Spread(gaps[..i], texts[..i]) + if i == 0 then "\n" else "\n\n"
    {
      LineMore(head, gaps, texts, i, "\n\n");
      assert order[i] in order;
      var text := PrintTab(db.tabs[order[i]]);
      assert text + "\n" == texts[i] + "\n\n";
      os := os + (text + "\n");
    }
  }

  // ---- An example ---------------------------------------------------------------------------------------

  lemma OneLine(text: string)
    ensures Spread(Lines(1), [text]) == "\n" + text
  {
  }

  lemma TwoLines(a: string, b: string)
    ensures Spread(Lines(2), [a, b]) == "\n" + a + "\n" + b
  {
    assert Lines(2)[..1] == Lines(1) && [a, b][..1] == [a];
    OneLine(a);
  }

  lemma IntsAsText()
    ensures IntText(0) == "0" && IntText(1) == "1" && IntText(2) == "2" && IntText(4) == "4" && IntText(12) == "12"
    ensures IntText(-1) == "-1"
  {
  }

  /** A column, an index and a table as text. */
  lemma ColumnAsText()
    ensures ColText(ColMeta("t", "a", 2, 12, 4, true)) == "t a 2 12 4 1"
    ensures ColText(ColMeta("t", "b", 0, 4, 0, false)) == "t b 0 4 0 0"
  {
    IntsAsText();
    hide IntText;
  }

  lemma IndexAsText(a: ColMeta)
    ensures IndexText(IndexMeta("t", 12, 1, [a])) == "t 12 1\n" + ColText(a)
  {
    IntsAsText();
    hide ColText, IntText, Spread;
    OneLine(ColText(a));
    assert ColTexts([a]) == [ColText(a)];
  }

  lemma TableAsText(a: ColMeta, b: ColMeta, index: IndexMeta)
    ensures TabText(TabMeta("t", [a, b], [index])) ==
            "t\n2\n" + ColText(a) + "\n" + ColText(b) + "\n1\n" + IndexText(index)
  {
    IntsAsText();
    hide ColText, IntText, IndexText, Spread;
    TwoLines(ColText(a), ColText(b));
    OneLine(IndexText(index));
    assert ColTexts([a, b]) == [ColText(a), ColText(b)] && IndexTexts([index]) == [IndexText(index)];
  }
}
