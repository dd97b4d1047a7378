/**
 * Writing rows through a Db::Writer (code/addons/db: writer.cc, table.cc): closing the writer extends the
 * database table with the columns it lacks, and decides by counting columns whether the rows are new ones.
 */
module DbWriter {

  datatype ValueType = IntType | FloatType | BoolType | Float4Type | StringType | Matrix44Type | BlobType | GuidType

  /** A value of any of these types; only passing it on matters here. */
  datatype Value = Value(code: int)

  /** A registered attribute. */
  datatype AttrId = AttrId(key: nat, name: string, fourcc: nat, valueType: ValueType, default: Value)

  datatype Kind = Default | Primary | Indexed

  datatype Column = Column(attr: AttrId, kind: Kind, committed: bool)

  /** Attributes that differ have different names and fourCCs. */
  ghost predicate Registry(attrs: set<AttrId>) {
    forall a, b :: a in attrs && b in attrs && a != b ==> a.name != b.name && a.fourcc != b.fourcc
  }

  // ----- merging columns -----

  predicate Has(columns: seq<Column>, attr: AttrId) {
    exists i :: 0 <= i < |columns| && columns[i].attr == attr
  }

  predicate DistinctColumns(columns: seq<Column>) {
    forall i, j :: 0 <= i < j < |columns| ==> columns[i].attr != columns[j].attr
  }

  /** Append each new column whose attribute is not there yet. */
  function Extend(columns: seq<Column>, more: seq<Column>): seq<Column> {
    if more == [] then columns
    else
      var prior := Extend(columns, more[..|more| - 1]);
      var last := more[|more| - 1];
      if Has(prior, last.attr) then prior else prior + [last]
  }

  lemma ExtendNone(columns: seq<Column>)
    ensures Extend(columns, []) == columns
  {
  }

  lemma ExtendStep(columns: seq<Column>, more: seq<Column>, c: Column)
    ensures Extend(columns, more + [c])
      == if Has(Extend(columns, more), c.attr) then Extend(columns, more) else Extend(columns, more) + [c]
  {
    assert (more + [c])[..|more|] == more;
  }

  /** The old columns come first, and the others are among the new ones. */
  lemma {:induction false} ExtendKeeps(columns: seq<Column>, more: seq<Column>)
    ensures columns <= Extend(columns, more)
    ensures forall i :: |columns| <= i < |Extend(columns, more)| ==> Extend(columns, more)[i] in more
  {
    hide Has;
    if more != [] {
      ExtendKeeps(columns, more[..|more| - 1]);
    }
  }

  function Attrs(columns: seq<Column>): (attrs: set<AttrId>)
    ensures forall a :: a in attrs <==> Has(columns, a)
  {
    set i | 0 <= i < |columns| :: columns[i].attr
  }

  /** The columns of `more` that `columns` lacks, in their order. */
  function Missing(columns: seq<Column>, more: seq<Column>): seq<Column> {
    if more == [] then []
    else
      var last := more[|more| - 1];
      Missing(columns, more[..|more| - 1]) + if Has(columns, last.attr) then [] else [last]
  }

  lemma {:induction false} ExtendAttrs(columns: seq<Column>, more: seq<Column>)
    ensures Attrs(Extend(columns, more)) == Attrs(columns) + Attrs(more)
    ensures DistinctColumns(columns) ==> DistinctColumns(Extend(columns, more))
  {
    hide Attrs;
    if more == [] {
      NoAttrs();
    } else {
      var prior := more[..|more| - 1];
      ExtendAttrs(columns, prior);
      AttrsAppend(prior, more[|more| - 1]);
      AttrsAppend(Extend(columns, prior), more[|more| - 1]);
      assert prior + [more[|more| - 1]] == more;
    }
  }

  lemma NoAttrs()
    ensures Attrs([]) == {}
  {
  }

  lemma AttrsAppend(columns: seq<Column>, c: Column)
    ensures Attrs(columns + [c]) == Attrs(columns) + {c.attr}
  {
    var all := columns + [c];
    forall a ensures Has(all, a) <==> Has(columns, a) || a == c.attr {
      if Has(columns, a) {
        var i :| 0 <= i < |columns| && columns[i].attr == a;
        assert all[i].attr == a;
      }
      if a == c.attr {
        assert all[|columns|].attr == a;
      }
    }
  }

  /** The old columns stay as a prefix, and what follows are the missing ones in the writer's order. */
  lemma {:induction false} ExtendIsAppend(columns: seq<Column>, more: seq<Column>)
    requires DistinctColumns(more)
    ensures Extend(columns, more) == columns + Missing(columns, more)
  {
    if more != [] {
      var prior := more[..|more| - 1];
      ExtendIsAppend(columns, prior);
      ExtendAttrs(columns, prior);
      var last := more[|more| - 1].attr;
      assert last !in Attrs(prior);
      assert Has(Extend(columns, prior), last) <==> last in Attrs(Extend(columns, prior));
    }
  }

  /** Extending again adds nothing. */
  lemma {:induction false} ExtendTwice(columns: seq<Column>, more: seq<Column>, n: nat)
    requires n <= |more|
    ensures Extend(Extend(columns, more), more[..n]) == Extend(columns, more)
  {
    if n > 0 {
      ExtendTwice(columns, more, n - 1);
      ExtendAttrs(columns, more);
      assert more[..n][..n - 1] == more[..n - 1];
      assert more[n - 1].attr in Attrs(more);
    }
  }

  lemma {:induction false} ExtendNothing(more: seq<Column>)
    requires DistinctColumns(more)
    ensures Extend([], more) == more
  {
    if more != [] {
      ExtendNothing(more[..|more| - 1]);
    }
  }

  lemma {:induction false} CountAttrs(columns: seq<Column>)
    requires DistinctColumns(columns)
    ensures |Attrs(columns)| == |columns|
  {
    hide Attrs;
    if columns == [] {
      NoAttrs();
    } else {
      var prior := columns[..|columns| - 1];
      CountAttrs(prior);
      AttrsAppend(prior, columns[|columns| - 1]);
      assert prior + [columns[|columns| - 1]] == columns;
      assert columns[|columns| - 1].attr !in Attrs(prior);
    }
  }

  /** Counting tells it: the writer has fewer columns than the extended table exactly when it lacks one of the table's. */
  lemma {:induction false} FewerIff(columns: seq<Column>, more: seq<Column>)
    requires DistinctColumns(columns) && DistinctColumns(more)
    ensures |more| < |Extend(columns, more)| <==> exists i :: 0 <= i < |columns| && !Has(more, columns[i].attr)
  {
    hide Attrs;
    ExtendAttrs(columns, more);
    CountAttrs(Extend(columns, more));
    CountAttrs(more);
    var (all, writers) := (Attrs(Extend(columns, more)), Attrs(more));
    SubsetSize(writers, all);
    if i :| 0 <= i < |columns| && !Has(more, columns[i].attr) {
      assert columns[i].attr in Attrs(columns) && columns[i].attr !in writers;
    } else {
      forall a | a in all ensures a in writers {
        if a in Attrs(columns) {
          var i :| 0 <= i < |columns| && columns[i].attr == a;
        }
      }
      assert all == writers;
    }
  }

  lemma {:induction false} SubsetSize<T>(a: set<T>, b: set<T>)
    requires a <= b
    ensures |a| <= |b| && (|a| == |b| ==> a == b)
  {
    assert b == a + (b - a);
    assert |b| == |a| + |b - a|;
  }

  // ----- committed columns -----

  /** Table::HasUncommittedColumns looks at the last column only. */
  predicate LastUncommitted(columns: seq<Column>) {
    columns != [] && !columns[|columns| - 1].committed
  }

  predicate AnyUncommitted(columns: seq<Column>) {
    exists i :: 0 <= i < |columns| && !columns[i].committed
  }

  predicate NoneCommitted(columns: seq<Column>) {
    forall i :: 0 <= i < |columns| ==> !columns[i].committed
  }

  predicate AllCommitted(columns: seq<Column>) {
    forall i :: 0 <= i < |columns| ==> columns[i].committed
  }

  /** For a writer's columns on a committed table the last one tells: there are uncommitted columns iff any was missing. */
  lemma {:induction false} LastTells(columns: seq<Column>, more: seq<Column>)
    requires AllCommitted(columns) && NoneCommitted(more) && DistinctColumns(more)
    ensures var all := Extend(columns, more);
      && (LastUncommitted(all) <==> AnyUncommitted(all))
      && (LastUncommitted(all) <==> exists i :: 0 <= i < |more| && !Has(columns, more[i].attr))
  {
    ExtendIsAppend(columns, more);
    MissingIff(columns, more);
  }

  lemma {:induction false} MissingIff(columns: seq<Column>, more: seq<Column>)
    ensures Missing(columns, more) != [] <==> exists i :: 0 <= i < |more| && !Has(columns, more[i].attr)
    ensures forall i :: 0 <= i < |Missing(columns, more)| ==>
      Missing(columns, more)[i] in more && !Has(columns, Missing(columns, more)[i].attr)
  {
    hide Has;
    if more != [] {
      var n := |more| - 1;
      MissingIff(columns, more[..n]);
      assert forall i :: 0 <= i < n ==> more[..n][i] == more[i];
      if i :| 0 <= i < n && !Has(columns, more[..n][i].attr) {
        assert !Has(columns, more[i].attr);
      }
    }
  }

  /**
   * Reading a table's layout from the database appends committed columns, so an uncommitted column added
   * before is found afterwards exactly when the database brought no column of its own.
   */
  lemma LayoutHidesUncommitted(columns: seq<Column>, layout: seq<Column>)
    requires DistinctColumns(layout) && AllCommitted(layout) && LastUncommitted(columns)
    ensures AnyUncommitted(Extend(columns, layout))
    ensures LastUncommitted(Extend(columns, layout)) <==> forall i :: 0 <= i < |layout| ==> Has(columns, layout[i].attr)
  {
    ExtendIsAppend(columns, layout);
    MissingIff(columns, layout);
    assert !Extend(columns, layout)[|columns| - 1].committed;
  }

  /** One uncommitted column, and another one found in the database: the first will not be noticed. */
  lemma UncommittedColumnOverlooked(mine: AttrId, found: AttrId)
    requires mine != found
    ensures var after := Extend([Column(mine, Default, false)], [Column(found, Default, true)]);
      AnyUncommitted(after) && !LastUncommitted(after)
  {
    var columns, layout := [Column(mine, Default, false)], [Column(found, Default, true)];
    LayoutHidesUncommitted(columns, layout);
    assert !Has(columns, layout[0].attr);
  }

  function Committed(columns: seq<Column>): (all: seq<Column>)
    ensures AllCommitted(all) && |all| == |columns|
    ensures forall i :: 0 <= i < |all| ==> all[i] == columns[i].(committed := true)
  {
    seq(|columns|, i requires 0 <= i < |columns| => columns[i].(committed := true))
  }

  // ----- the index maps of a table -----

  /** The map sends exactly the keys in use to their positions. */
  ghost predicate IndexMap<K>(keys: seq<K>, m: map<K, nat>) {
    && (forall i :: 0 <= i < |keys| ==> keys[i] in m && m[keys[i]] == i)
    && (forall k :: k in m ==> m[k] < |keys| && keys[m[k]] == k)
  }

  lemma IndexMapAppend<K>(keys: seq<K>, m: map<K, nat>, k: K)
    requires IndexMap(keys, m) && k !in m
    ensures IndexMap(keys + [k], m[k := |keys|])
  {
  }

  function AttrsOf(columns: seq<Column>): (attrs: seq<AttrId>)
    ensures |attrs| == |columns| && forall i :: 0 <= i < |attrs| ==> attrs[i] == columns[i].attr
  {
    seq(|columns|, i requires 0 <= i < |columns| => columns[i].attr)
  }

  function NamesOf(columns: seq<Column>): (names: seq<string>)
    ensures |names| == |columns| && forall i :: 0 <= i < |names| ==> names[i] == columns[i].attr.name
  {
    seq(|columns|, i requires 0 <= i < |columns| => columns[i].attr.name)
  }

  function FourCCsOf(columns: seq<Column>): (fourccs: seq<nat>)
    ensures |fourccs| == |columns| && forall i :: 0 <= i < |fourccs| ==> fourccs[i] == columns[i].attr.fourcc
  {
    seq(|columns|, i requires 0 <= i < |columns| => columns[i].attr.fourcc)
  }

  /** The last primary column, or -1. */
  function PrimaryIndex(columns: seq<Column>): (i: int)
    ensures -1 <= i < |columns|
    ensures i >= 0 ==> columns[i].kind == Primary
    ensures forall j :: i < j < |columns| ==> columns[j].kind != Primary
  {
    if columns == [] then -1
    else if columns[|columns| - 1].kind == Primary then |columns| - 1
    else PrimaryIndex(columns[..|columns| - 1])
  }

  lemma PrimaryAppend(columns: seq<Column>, c: Column)
    ensures PrimaryIndex(columns + [c]) == if c.kind == Primary then |columns| else PrimaryIndex(columns)
  {
    assert (columns + [c])[..|columns|] == columns;
  }

  lemma KeysAppend(columns: seq<Column>, c: Column)
    ensures AttrsOf(columns + [c]) == AttrsOf(columns) + [c.attr]
    ensures NamesOf(columns + [c]) == NamesOf(columns) + [c.attr.name]
    ensures FourCCsOf(columns + [c]) == FourCCsOf(columns) + [c.attr.fourcc]
  {
  }

  class Table {
    var name: string
    var columns: seq<Column>
    var nameIndexMap: map<string, nat>
    var fourccIndexMap: map<nat, nat>
    var attrIdIndexMap: map<AttrId, nat>
    /** -1 stands for InvalidIndex. */
    var primaryColumnIndex: int

    ghost predicate Valid()
      reads this
    {
      && IndexMap(AttrsOf(columns), attrIdIndexMap)
      && IndexMap(NamesOf(columns), nameIndexMap)
      && IndexMap(FourCCsOf(columns), fourccIndexMap)
      && primaryColumnIndex == PrimaryIndex(columns)
    }

    constructor (name: string)
      ensures Valid() && columns == [] && this.name == name
    {
      this.name, columns, primaryColumnIndex := name, [], -1;
      nameIndexMap, fourccIndexMap, attrIdIndexMap := map[], map[], map[];
    }

    predicate HasColumn(attr: AttrId)
      requires Valid()
      reads this
      ensures HasColumn(attr) <==> Has(columns, attr)
    {
      attr in attrIdIndexMap
    }

    /** The containers refuse a key that is in use. */
    method AddColumn(c: Column)
      requires Valid()
      requires c.attr !in attrIdIndexMap && c.attr.name !in nameIndexMap && c.attr.fourcc !in fourccIndexMap
      modifies this
      ensures Valid() && columns == old(columns) + [c] && name == old(name)
    {
      hide IndexMap, PrimaryIndex, AttrsOf, NamesOf, FourCCsOf;
      PrimaryAppend(columns, c);
      KeysAppend(columns, c);
      IndexMapAppend(AttrsOf(columns), attrIdIndexMap, c.attr);
      IndexMapAppend(NamesOf(columns), nameIndexMap, c.attr.name);
      IndexMapAppend(FourCCsOf(columns), fourccIndexMap, c.attr.fourcc);
      columns := columns + [c];
      nameIndexMap := nameIndexMap[c.attr.name := |columns| - 1];
      fourccIndexMap := fourccIndexMap[c.attr.fourcc := |columns| - 1];
      attrIdIndexMap := attrIdIndexMap[c.attr := |columns| - 1];
      if c.kind == Primary {
        primaryColumnIndex := |columns| - 1;
      }
    }

    predicate HasUncommittedColumns()
      reads this
    {
      |columns| > 0 && !columns[|columns| - 1].committed
    }

    /** What committing does to the columns: all of them count as being in the database. */
    method SetAllCommitted()
      requires Valid()
      modifies this`columns
      ensures Valid() && columns == Committed(old(columns))
    {
      hide IndexMap, PrimaryIndex;
      for i := 0 to |columns|
        invariant |columns| == |old(columns)|
        invariant forall k :: 0 <= k < i ==> columns[k] == old(columns)[k].(committed := true)
        invariant forall k :: i <= k < |columns| ==> columns[k] == old(columns)[k]
      {
        columns := columns[i := columns[i].(committed := true)];
      }
      CommittedPrimary(old(columns));
      assert AttrsOf(columns) == AttrsOf(old(columns));
      assert NamesOf(columns) == NamesOf(old(columns));
      assert FourCCsOf(columns) == FourCCsOf(old(columns));
    }
  }

  lemma {:induction false} CommittedPrimary(columns: seq<Column>)
    ensures PrimaryIndex(Committed(columns)) == PrimaryIndex(columns)
  {
    if columns != [] {
      CommittedPrimary(columns[..|columns| - 1]);
      assert Committed(columns)[..|columns| - 1] == Committed(columns[..|columns| - 1]);
    }
  }

  // ----- writing rows -----

  /** Setting a value marks its row as modified; only for these types it also marks the table as having such rows. */
  predicate MarksTable(valueType: ValueType) {
    !valueType.IntType? && !valueType.FloatType? && !valueType.BoolType?
  }

  predicate SomeMarksTable(attrs: seq<AttrId>) {
    exists i :: 0 <= i < |attrs| && MarksTable(attrs[i].valueType)
  }

  predicate HasPrimary(columns: seq<Column>) {
    exists i :: 0 <= i < |columns| && columns[i].kind == Primary
  }

  /** What becomes of the rows of a writer. */
  datatype Fate = Inserted | Updated | Dropped

  /**
   * New rows are inserted. Rows that do not count as new are updated by the primary key, if there is one
   * and another column to set, and if the value table knows that it has modified rows; else nothing is written.
   */
  function FateOf(table: seq<Column>, written: seq<AttrId>): Fate {
    if |written| >= |table| then Inserted
    else if PrimaryIndex(table) >= 0 && |written| > 1 && SomeMarksTable(written) then Updated
    else Dropped
  }

  lemma {:induction false} PrimaryIff(columns: seq<Column>)
    ensures PrimaryIndex(columns) >= 0 <==> HasPrimary(columns)
  {
    if columns != [] {
      PrimaryIff(columns[..|columns| - 1]);
    }
  }

  /**
   * Rows are inserted exactly when no column was added after opening and the writer has all columns the
   * table had before.
   */
  lemma InsertedIff(columns: seq<Column>, more: seq<Column>, atOpen: nat)
    requires DistinctColumns(columns) && DistinctColumns(more) && atOpen <= |more|
    ensures FateOf(Committed(Extend(columns, more)), AttrsOf(more[..atOpen])) == Inserted
       <==> atOpen == |more| && forall i :: 0 <= i < |columns| ==> Has(more, columns[i].attr)
  {
    FewerIff(columns, more);
    NotFewer(columns, more);
  }

  lemma NotFewer(columns: seq<Column>, more: seq<Column>)
    requires DistinctColumns(columns) && DistinctColumns(more)
    ensures |more| <= |Extend(columns, more)|
  {
    hide Attrs;
    ExtendAttrs(columns, more);
    CountAttrs(Extend(columns, more));
    CountAttrs(more);
    SubsetSize(Attrs(more), Attrs(Extend(columns, more)));
  }

  /**
   * Rows that are not inserted are updated exactly when the table has a primary column, old or new, and the
   * writer was opened with at least two columns, one of them not of type int, float or bool.
   */
  lemma UpdatedIff(columns: seq<Column>, more: seq<Column>, atOpen: nat)
    requires DistinctColumns(columns) && DistinctColumns(more) && atOpen <= |more|
    ensures FateOf(Committed(Extend(columns, more)), AttrsOf(more[..atOpen])) == Updated
       <==>
         && (atOpen < |more| || exists i :: 0 <= i < |columns| && !Has(more, columns[i].attr))
         && (HasPrimary(columns) || HasPrimary(Missing(columns, more)))
         && atOpen > 1
         && exists i :: 0 <= i < atOpen && more[i].attr.valueType !in {IntType, FloatType, BoolType}
  {
    hide Extend, Has, Missing, HasPrimary;
    InsertedIff(columns, more, atOpen);
    var all := Extend(columns, more);
    CommittedPrimary(all);
    PrimaryIff(all);
    ExtendIsAppend(columns, more);
    PrimaryOfBoth(columns, Missing(columns, more));
    MarksAtOpen(more, atOpen);
  }

  lemma PrimaryOfBoth(columns: seq<Column>, others: seq<Column>)
    ensures HasPrimary(columns + others) <==> HasPrimary(columns) || HasPrimary(others)
  {
    var all := columns + others;
    if i :| 0 <= i < |columns| && columns[i].kind == Primary {
      assert all[i].kind == Primary;
    }
    if i :| 0 <= i < |others| && others[i].kind == Primary {
      assert all[|columns| + i].kind == Primary;
    }
  }

  lemma MarksAtOpen(more: seq<Column>, atOpen: nat)
    requires atOpen <= |more|
    ensures SomeMarksTable(AttrsOf(more[..atOpen]))
       <==> exists i :: 0 <= i < atOpen && more[i].attr.valueType !in {IntType, FloatType, BoolType}
  {
    var attrs := AttrsOf(more[..atOpen]);
    if i :| 0 <= i < atOpen && more[i].attr.valueType !in {IntType, FloatType, BoolType} {
      assert attrs[i] == more[i].attr;
    }
  }

  /** An int and a float for a table that has one more column: the row is lost, with a primary key and all. */
  lemma NumbersAreDropped(key: AttrId, number: AttrId, other: AttrId)
    requires key != number && key != other && number != other
    requires key.valueType == IntType && number.valueType == FloatType
    ensures var table := [Column(key, Primary, true), Column(number, Default, true), Column(other, Default, true)];
      var writer := [Column(key, Default, false), Column(number, Default, false)];
      FateOf(Committed(Extend(table, writer)), AttrsOf(writer)) == Dropped
  {
    var table := [Column(key, Primary, true), Column(number, Default, true), Column(other, Default, true)];
    var writer := [Column(key, Default, false), Column(number, Default, false)];
    assert writer[..2] == writer;
    UpdatedIff(table, writer, 2);
    InsertedIff(table, writer, 2);
    assert !Has(writer, table[2].attr);
  }

  /** A column added after opening: every row is lost, even with a new table. */
  lemma LateColumnDropsRows(early: AttrId, late: AttrId)
    requires early != late
    ensures var writer := [Column(early, Default, false), Column(late, Default, false)];
      FateOf(Committed(Extend([], writer)), AttrsOf(writer[..1])) == Dropped
  {
    var writer := [Column(early, Default, false), Column(late, Default, false)];
    UpdatedIff([], writer, 1);
    InsertedIff([], writer, 1);
  }

  type Row = map<AttrId, Value>

  function Defaults(attrs: seq<AttrId>): Row {
    map a | a in attrs :: a.default
  }

  /** The row CopyExtRow makes: the values the other table has, defaults for the other columns. */
  function Copied(attrs: seq<AttrId>, others: seq<AttrId>, row: Row): Row
    requires forall a :: a in others ==> a in row
  {
    map a | a in attrs :: if a in others then row[a] else a.default
  }

  lemma DefaultsNone()
    ensures Defaults([]) == map[] && !SomeMarksTable([])
  {
  }

  lemma DefaultsMore(attrs: seq<AttrId>, attr: AttrId)
    ensures Defaults(attrs + [attr]) == Defaults(attrs)[attr := attr.default]
  {
  }

  lemma DefaultsTell(attrs: seq<AttrId>)
    ensures forall a :: a in attrs ==> a in Defaults(attrs) && Defaults(attrs)[a] == a.default
  {
  }

  lemma CopiedNone(attrs: seq<AttrId>, row: Row)
    ensures Copied(attrs, [], row) == Defaults(attrs)
  {
  }

  lemma CopiedMore(attrs: seq<AttrId>, others: seq<AttrId>, attr: AttrId, row: Row)
    requires (forall a :: a in others ==> a in row) && attr in row
    ensures var prior := Copied(attrs, others, row);
      Copied(attrs, others + [attr], row) == if attr in attrs then prior[attr := row[attr]] else prior
  {
  }

  class ValueTable {
    var columns: seq<AttrId>
    var rows: seq<Row>
    var newRows: seq<nat>
    var rowModified: seq<bool>
    var rowsModified: bool

    constructor ()
      ensures columns == [] && rows == [] && AllNew()
    {
      columns, rows, newRows, rowModified, rowsModified := [], [], [], [], false;
    }

    /** Every row has a value in every column. */
    ghost predicate Filled()
      reads this
    {
      forall r, a :: 0 <= r < |rows| && a in columns ==> a in rows[r]
    }

    /** The table has been given its columns first, then rows, and nothing was cleared since. */
    ghost predicate AllNew()
      reads this
    {
      && newRows == Rows(|rows|)
      && |rowModified| == |rows|
      && (forall r :: 0 <= r < |rows| ==> (rowModified[r] <==> columns != []))
      && (rowsModified <==> rows != [] && SomeMarksTable(columns))
    }

    /** SetInt, SetString and their siblings. */
    method Set(attr: AttrId, row: nat, v: Value)
      requires attr in columns && row < |rows| == |rowModified|
      modifies this`rows, this`rowModified, this`rowsModified
      ensures rows == old(rows)[row := old(rows[row])[attr := v]]
      ensures rowModified == old(rowModified)[row := true]
      ensures rowsModified == (old(rowsModified) || attr.valueType !in {IntType, FloatType, BoolType})
    {
      rows := rows[row := rows[row][attr := v]];
      rowModified := rowModified[row := true];
      if MarksTable(attr.valueType) {
        rowsModified := true;
      }
    }

    method AddColumn(attr: AttrId)
      requires attr !in columns && |rowModified| == |rows|
      modifies this`columns, this`rows, this`rowModified, this`rowsModified
      ensures columns == old(columns) + [attr] && |rows| == |rowModified| == |old(rows)|
      ensures forall r :: 0 <= r < |rows| ==> rows[r] == old(rows)[r][attr := attr.default] && rowModified[r]
      ensures rowsModified == (old(rowsModified) || (rows != [] && MarksTable(attr.valueType)))
    {
      columns := columns + [attr];
      for row := 0 to |rows|
        invariant attr in columns && columns == old(columns) + [attr]
        invariant |rows| == |rowModified| == |old(rows)|
        invariant forall r :: 0 <= r < row ==> rows[r] == old(rows)[r][attr := attr.default] && rowModified[r]
        invariant forall r :: row <= r < |rows| ==> rows[r] == old(rows)[r]
        invariant rowsModified == (old(rowsModified) || (row > 0 && MarksTable(attr.valueType)))
      {
        Set(attr, row, attr.default);
      }
    }

    /** A new row is filled with the defaults, through the setters. */
    method AddRow() returns (row: nat)
      requires |rowModified| == |rows|
      modifies this`rows, this`newRows, this`rowModified, this`rowsModified
      ensures row == |old(rows)| && rows == old(rows) + [Defaults(columns)]
      ensures forall a :: a in columns ==> a in rows[row] && rows[row][a] == a.default
      ensures newRows == old(newRows) + [row] && rowModified == old(rowModified) + [columns != []]
      ensures rowsModified == (old(rowsModified) || SomeMarksTable(columns))
    {
      hide Defaults, SomeMarksTable, MarksTable;
      DefaultsNone();
      row := |rows|;
      rows, newRows, rowModified := rows + [map[]], newRows + [row], rowModified + [false];
      for i := 0 to |columns|
        invariant newRows == old(newRows) + [row]
        invariant rows == old(rows) + [Defaults(columns[..i])] && rowModified == old(rowModified) + [i > 0]
        invariant rowsModified == (old(rowsModified) || SomeMarksTable(columns[..i]))
      {
        MarksAppend(columns[..i], columns[i]);
        assert columns[..i + 1] == columns[..i] + [columns[i]];
        Set(columns[i], row, columns[i].default);
        DefaultsMore(columns[..i], columns[i]);
      }
      assert columns[..|columns|] == columns;
      DefaultsTell(columns);
    }

    /** A new row with the values of another table's row, where the columns are the same. */
    method CopyExtRow(other: ValueTable, otherRow: nat)
      requires AllNew() && other != this && otherRow < |other.rows| && other.Filled()
      modifies this`rows, this`newRows, this`rowModified, this`rowsModified
      ensures AllNew() && rows == old(rows) + [Copied(columns, other.columns, other.rows[otherRow])]
    {
      hide SomeMarksTable, MarksTable, Copied, Defaults;
      ghost var (n, others, source) := (|rows|, other.columns, other.rows[otherRow]);
      assert forall a :: a in others ==> a in source;
      var row := AddRow();
      CopiedNone(columns, source);
      for i := 0 to |other.columns|
        invariant AllNew() && |rows| == n + 1 && rows[..n] == old(rows)
        invariant rows[n] == Copied(columns, others[..i], source)
      {
        var attr := other.columns[i];
        assert others[..i + 1] == others[..i] + [attr];
        CopiedMore(columns, others[..i], attr, source);
        if attr in columns {
          MarksMember(columns, attr);
          Set(attr, row, other.rows[otherRow][attr]);
        }
      }
      assert others[..|others|] == others;
    }

    method ClearNewRowFlags()
      modifies this`newRows
      ensures newRows == []
    {
      newRows := [];
    }
  }

  lemma MarksMember(attrs: seq<AttrId>, attr: AttrId)
    requires attr in attrs
    ensures attr.valueType !in {IntType, FloatType, BoolType} ==> SomeMarksTable(attrs)
  {
  }

  lemma MarksAppend(attrs: seq<AttrId>, attr: AttrId)
    ensures SomeMarksTable(attrs + [attr]) <==> SomeMarksTable(attrs) || attr.valueType !in {IntType, FloatType, BoolType}
  {
    var all := attrs + [attr];
    if i :| 0 <= i < |attrs| && MarksTable(attrs[i].valueType) {
      assert all[i] == attrs[i];
    }
    assert all[|attrs|] == attr;
  }

  lemma Without<T>(s: seq<T>, i: nat, x: T)
    requires i < |s| && forall j, k :: 0 <= j < k < |s| ==> s[j] != s[k]
    ensures x in s[..i] + s[i + 1..] <==> x in s && x != s[i]
  {
    if x in s && x != s[i] {
      var k :| 0 <= k < |s| && s[k] == x;
      if k < i {
        assert s[..i][k] == x;
      } else {
        assert s[i + 1..][k - i - 1] == x;
      }
    }
  }

  datatype Statement = Statement(table: string, row: Row, how: Fate)

  class Database {
    var tables: seq<Table>
    /** The rows sent to the database, in order. */
    ghost var sent: seq<Statement>

    constructor ()
      ensures tables == []
    {
      tables, sent := [], [];
    }

    /** Names are unique, and every table is indexed and committed. */
    ghost predicate Valid()
      reads this, tables
    {
      ValidBut(null)
    }

    /** One table may have columns to be committed. */
    ghost predicate ValidBut(open: Table?)
      reads this, tables
    {
      && (forall i, j :: 0 <= i < j < |tables| ==> tables[i] != tables[j] && tables[i].name != tables[j].name)
      && (forall t :: t in tables ==> t.Valid() && (t != open ==> AllCommitted(t.columns)))
    }

    /** -1 stands for InvalidIndex. */
    method FindTableIndex(name: string) returns (i: int)
      ensures -1 <= i < |tables|
      ensures i >= 0 ==> tables[i].name == name && forall k :: 0 <= k < i ==> tables[k].name != name
      ensures i == -1 ==> forall k :: 0 <= k < |tables| ==> tables[k].name != name
    {
      i := 0;
      while i < |tables|
        invariant 0 <= i <= |tables|
        invariant forall k :: 0 <= k < i ==> tables[k].name != name
      {
        if tables[i].name == name {
          return i;
        }
        i := i + 1;
      }
      return -1;
    }

    /** The table is created in the database, which makes its columns committed. */
    method AddTable(table: Table)
      requires Valid() && table.Valid() && table !in tables
      requires forall t :: t in tables ==> t.name != table.name
      modifies this`tables, table`columns
      ensures Valid() && tables == old(tables) + [table] && table.Valid() && table.columns == Committed(old(table.columns))
    {
      tables := tables + [table];
      table.SetAllCommitted();
    }

    method DeleteTable(name: string)
      requires Valid() && exists i :: 0 <= i < |tables| && tables[i].name == name
      modifies this`tables
      ensures Valid() && forall t :: t in tables <==> t in old(tables) && t.name != name
    {
      hide Table.Valid, AllCommitted;
      var i := FindTableIndex(name);
      ghost var before := tables;
      tables := tables[..i] + tables[i + 1..];
      forall t ensures t in tables <==> t in before && t.name != name {
        Without(before, i, t);
        assert t in before && t.name == name ==> t == before[i];
      }
    }

    /** Table::CommitChanges, the columns; a primary column cannot be added to a table that exists. */
    method CommitColumns(table: Table)
      requires ValidBut(table) && table in tables
      requires LastUncommitted(table.columns) <==> AnyUncommitted(table.columns)
      requires forall i :: 0 <= i < |table.columns| && !table.columns[i].committed ==> table.columns[i].kind != Primary
      modifies table`columns
      ensures Valid() && table.columns == Committed(old(table.columns))
    {
      hide IndexMap, PrimaryIndex;
      if table.HasUncommittedColumns() {
        table.SetAllCommitted();
      } else {
        assert Committed(table.columns) == table.columns;
      }
    }

    /**
     * Table::CommitChanges, the rows: first the new ones as INSERTs, then the other modified ones as UPDATEs,
     * if the value table reports any. The SQL text is not part of this model.
     */
    method CommitRows(table: Table, values: ValueTable)
      requires table.Valid() && PrimaryIsKnown(table.columns, values)
      requires |values.rowModified| == |values.rows| && forall r :: r in values.newRows ==> r < |values.rows|
      modifies this`sent
      ensures sent == old(sent) + SentOf(table.name, values.rows, values.newRows, Inserted)
        + if PrimaryIndex(table.columns) >= 0 && values.rowsModified && |values.columns| > 1
          then SentOf(table.name, values.rows, OldModified(values.newRows, values.rowModified), Updated) else []
    {
      hide IndexMap, PrimaryIndex;
      SendRows(table.name, values, values.newRows, Inserted);
      if table.primaryColumnIndex >= 0 && values.rowsModified && |values.columns| > 1 {
        var modRowIndices := ModifiedRowsExcludeNew(values);
        SendRows(table.name, values, modRowIndices, Updated);
      }
    }

    /** ExecuteInsertCommand and ExecuteUpdateCommand, once the rows are known. */
    method SendRows(name: string, values: ValueTable, which: seq<nat>, how: Fate)
      requires forall r :: r in which ==> r < |values.rows|
      modifies this`sent
      ensures sent == old(sent) + SentOf(name, values.rows, which, how)
    {
      for i := 0 to |which|
        invariant sent == old(sent) + SentOf(name, values.rows, which, how)[..i]
      {
        assert which[i] in which;
        sent := sent + [Statement(name, values.rows[which[i]], how)];
      }
    }

    /** GetModifiedRowsExcludeNewAndDeletedRows; a writer deletes no row. */
    method ModifiedRowsExcludeNew(values: ValueTable) returns (result: seq<nat>)
      ensures result == OldModified(values.newRows, values.rowModified)
    {
      result := [];
      for row := 0 to |values.rowModified|
        invariant result == OldModified(values.newRows, values.rowModified[..row])
      {
        assert values.rowModified[..row + 1][..row] == values.rowModified[..row];
        if values.rowModified[row] && row !in values.newRows {
          result := result + [row];
        }
      }
      assert values.rowModified[..|values.rowModified|] == values.rowModified;
    }
  }

  function OldModified(newRows: seq<nat>, rowModified: seq<bool>): (result: seq<nat>)
    ensures forall r: nat :: r in result <==> r < |rowModified| && rowModified[r] && r !in newRows
  {
    if rowModified == [] then []
    else
      var n := |rowModified| - 1;
      OldModified(newRows, rowModified[..n]) + if rowModified[n] && n !in newRows then [n] else []
  }

  /** The statements for some of the rows. */
  ghost function SentOf(name: string, rows: seq<Row>, which: seq<nat>, fate: Fate): seq<Statement>
    requires forall r :: r in which ==> r < |rows|
  {
    seq(|which|, i requires 0 <= i < |which| => assert which[i] in which; Statement(name, rows[which[i]], fate))
  }

  /** What CommitRows sends of a table that has only new rows, or had them before their flags were cleared. */
  lemma RowsByFate(name: string, rows: seq<Row>, newRows: seq<nat>, rowModified: seq<bool>, rowsModified: bool,
                   table: seq<Column>, written: seq<AttrId>)
    requires |rowModified| == |rows| && forall r :: 0 <= r < |rows| ==> (rowModified[r] <==> written != [])
    requires rowsModified <==> rows != [] && SomeMarksTable(written)
    requires newRows == if |written| < |table| then [] else Rows(|rows|)
    ensures forall r :: r in newRows ==> r < |rows|
    ensures SentOf(name, rows, newRows, Inserted)
        + (if PrimaryIndex(table) >= 0 && rowsModified && |written| > 1
           then SentOf(name, rows, OldModified(newRows, rowModified), Updated) else [])
      == Sent(name, rows, FateOf(table, written))
  {
    if |written| < |table| {
      if written != [] {
        AllOld(rowModified);
      }
    } else {
      forall r | 0 <= r < |rows| ensures r in newRows {
        assert newRows[r] == r;
      }
      assert forall r :: r !in OldModified(newRows, rowModified);
      EmptySeq(OldModified(newRows, rowModified));
    }
  }

  lemma EmptySeq<T>(s: seq<T>)
    ensures s == [] || s[0] in s
  {
  }

  lemma {:induction false} AllOld(rowModified: seq<bool>)
    requires forall r :: 0 <= r < |rowModified| ==> rowModified[r]
    ensures OldModified([], rowModified) == Rows(|rowModified|)
  {
    if rowModified != [] {
      AllOld(rowModified[..|rowModified| - 1]);
    }
  }

  /** UPDATEs name their row by the primary key. */
  ghost predicate PrimaryIsKnown(columns: seq<Column>, values: ValueTable)
    reads values
  {
    PrimaryIndex(columns) >= 0 && values.rowsModified ==> columns[PrimaryIndex(columns)].attr in values.columns
  }

  /** The columns of the table with that name, none if there is no such table. */
  ghost function ColumnsNamed(tables: seq<Table>, name: string): seq<Column>
    reads tables
  {
    if tables == [] then []
    else if tables[0].name == name then tables[0].columns
    else ColumnsNamed(tables[1..], name)
  }

  ghost predicate IsNamed(tables: seq<Table>, name: string)
    reads tables
  {
    exists i :: 0 <= i < |tables| && tables[i].name == name
  }

  lemma {:induction false} NamedAt(tables: seq<Table>, name: string, i: nat)
    requires i < |tables| && tables[i].name == name && forall k :: 0 <= k < i ==> tables[k].name != name
    ensures ColumnsNamed(tables, name) == tables[i].columns
  {
    if i > 0 {
      NamedAt(tables[1..], name, i - 1);
    }
  }

  lemma {:induction false} NotNamed(tables: seq<Table>, name: string)
    requires forall k :: 0 <= k < |tables| ==> tables[k].name != name
    ensures ColumnsNamed(tables, name) == []
  {
    if tables != [] {
      NotNamed(tables[1..], name);
    }
  }

  function Rows(n: nat): seq<nat> {
    seq(n, i => i)
  }

  /** All rows, in one way, or nothing. */
  ghost function Sent(name: string, rows: seq<Row>, fate: Fate): seq<Statement> {
    if fate == Dropped then [] else seq(|rows|, i requires 0 <= i < |rows| => Statement(name, rows[i], fate))
  }

  lemma SentTells(name: string, rows: seq<Row>, fate: Fate)
    ensures |Sent(name, rows, fate)| == if fate == Dropped then 0 else |rows|
    ensures fate != Dropped ==> forall r :: 0 <= r < |rows| ==> Sent(name, rows, fate)[r] == Statement(name, rows[r], fate)
  {
  }

  // ----- the writer -----

  class Writer {
    /** Null once the writer was closed. */
    var database: Database?
    var tableName: string
    var columns: seq<Column>
    var columnMap: map<AttrId, nat>
    var flushTable: bool
    var isOpen: bool
    var inBeginRow: bool
    /** The row being written; -1 stands for InvalidIndex. */
    var rowIndex: int
    var valueTable: ValueTable

    constructor (database: Database, tableName: string, flushTable: bool)
      ensures Valid() && !isOpen && columns == []
    {
      this.database, this.tableName, this.flushTable := database, tableName, flushTable;
      columns, columnMap, isOpen, inBeginRow, rowIndex := [], map[], false, false, -1;
      valueTable := new ValueTable();
    }

    /** Columns may still be added after opening; the value table keeps those it was opened with. */
    ghost predicate Valid()
      reads this, valueTable
    {
      && DistinctColumns(columns) && NoneCommitted(columns)
      && columnMap.Keys == Attrs(columns)
      && (inBeginRow ==> isOpen && 0 <= rowIndex < |valueTable.rows|)
      && (isOpen ==>
           && |valueTable.columns| <= |columns|
           && valueTable.columns == AttrsOf(columns[..|valueTable.columns|])
           && valueTable.AllNew())
    }

    method AddColumn(c: Column)
      requires Valid() && !c.committed && c.attr !in columnMap
      modifies this`columns, this`columnMap
      ensures Valid() && columns == old(columns) + [c]
    {
      AttrsAppend(columns, c);
      assert c.attr !in Attrs(columns);
      columns := columns + [c];
      columnMap := columnMap[c.attr := |columns| - 1];
    }

    method Open()
      requires Valid() && !isOpen && !inBeginRow
      modifies this`valueTable, this`isOpen
      ensures Valid() && isOpen && fresh(valueTable) && valueTable.columns == AttrsOf(columns) && valueTable.rows == []
    {
      valueTable := new ValueTable();
      CopyColumns();
      isOpen := true;
    }

    method CopyColumns()
      requires DistinctColumns(columns) && valueTable.columns == [] && valueTable.rows == [] && valueTable.AllNew()
      modifies valueTable
      ensures valueTable.columns == AttrsOf(columns) && valueTable.rows == [] && valueTable.AllNew()
    {
      for i := 0 to |columns|
        invariant valueTable.columns == AttrsOf(columns)[..i] && valueTable.rows == [] && valueTable.AllNew()
      {
        valueTable.AddColumn(columns[i].attr);
      }
    }

    /** The writer takes the source's columns it does not have, and copies all rows. */
    method OpenFromValueTable(src: ValueTable)
      requires Valid() && !isOpen && !inBeginRow && src.Filled()
      modifies this`valueTable, this`isOpen, this`columns, this`columnMap
      ensures Valid() && isOpen && fresh(valueTable)
      ensures columns == Extend(old(columns), DefaultColumns(src.columns))
      ensures valueTable.columns == AttrsOf(columns) && |valueTable.rows| == |src.rows|
      ensures forall r :: 0 <= r < |src.rows| ==> valueTable.rows[r] == Copied(valueTable.columns, src.columns, src.rows[r])
      ensures forall r, a :: 0 <= r < |src.rows| && a in valueTable.columns ==>
        && a in valueTable.rows[r]
        && valueTable.rows[r][a] == if a in src.columns then src.rows[r][a] else a.default
      ensures old(columns) <= columns && forall i :: |old(columns)| <= i < |columns| ==> columns[i].kind == Default
    {
      hide Extend, Attrs;
      AddSourceColumns(src);
      valueTable := new ValueTable();
      CopyColumns();
      for row := 0 to |src.rows|
        invariant columns == Extend(old(columns), DefaultColumns(src.columns)) && !inBeginRow
        invariant DistinctColumns(columns) && NoneCommitted(columns) && columnMap.Keys == Attrs(columns)
        invariant fresh(valueTable) && valueTable != src && valueTable.columns == AttrsOf(columns)
        invariant |valueTable.rows| == row && valueTable.AllNew()
        invariant forall r :: 0 <= r < row ==> valueTable.rows[r] == Copied(valueTable.columns, src.columns, src.rows[r])
      {
        valueTable.CopyExtRow(src, row);
      }
      isOpen := true;
      assert columns[..|columns|] == columns;
      ExtendKeeps(old(columns), DefaultColumns(src.columns));
    }

    method AddSourceColumns(src: ValueTable)
      requires Valid() && !isOpen
      modifies this`columns, this`columnMap
      ensures Valid() && columns == Extend(old(columns), DefaultColumns(src.columns))
    {
      hide Extend, Attrs;
      ExtendNone(columns);
      for i := 0 to |src.columns|
        invariant Valid() && columns == Extend(old(columns), DefaultColumns(src.columns)[..i])
      {
        var c := Column(src.columns[i], Default, false);
        assert DefaultColumns(src.columns)[..i + 1] == DefaultColumns(src.columns)[..i] + [c];
        ExtendStep(old(columns), DefaultColumns(src.columns)[..i], c);
        if c.attr !in columnMap {
          AddColumn(c);
        }
      }
      assert DefaultColumns(src.columns)[..|src.columns|] == DefaultColumns(src.columns);
    }

    method BeginRow()
      requires Valid() && isOpen && !inBeginRow
      modifies this`inBeginRow, this`rowIndex, valueTable
      ensures Valid() && inBeginRow && rowIndex == |old(valueTable.rows)|
      ensures valueTable.columns == old(valueTable.columns)
      ensures valueTable.rows == old(valueTable.rows) + [Defaults(valueTable.columns)]
      ensures forall a :: a in valueTable.columns ==> a in valueTable.rows[rowIndex] && valueTable.rows[rowIndex][a] == a.default
    {
      inBeginRow := true;
      rowIndex := valueTable.AddRow();
    }

    /** SetInt, SetString and their siblings: the value of a column the writer was opened with. */
    method SetValue(attr: AttrId, v: Value)
      requires Valid() && inBeginRow && attr in valueTable.columns
      modifies valueTable`rows, valueTable`rowModified, valueTable`rowsModified
      ensures Valid()
      ensures valueTable.rows == old(valueTable.rows)[rowIndex := old(valueTable.rows)[rowIndex][attr := v]]
    {
      valueTable.Set(attr, rowIndex, v);
    }

    method EndRow()
      requires Valid() && isOpen && inBeginRow
      modifies this`inBeginRow, this`rowIndex
      ensures Valid() && !inBeginRow
    {
      inBeginRow := false;
      rowIndex := -1;
    }

    /** Append the writer's columns the table lacks. */
    method UpdateColumns(table: Table)
      requires table.Valid() && DistinctColumns(table.columns)
      requires Registry(Attrs(table.columns) + Attrs(columns))
      modifies table
      ensures table.Valid() && table.name == old(table.name) && table.columns == Extend(old(table.columns), columns)
    {
      hide IndexMap, Registry, PrimaryIndex;
      for i := 0 to |columns|
        invariant table.Valid() && table.name == old(table.name)
        invariant table.columns == Extend(old(table.columns), columns[..i])
      {
        assert columns[..i + 1][..i] == columns[..i];
        if !table.HasColumn(columns[i].attr) {
          NoClash(old(table.columns), columns, i);
          KeysAreFree(table, columns[i].attr);
          table.AddColumn(columns[i]);
        }
      }
      assert columns[..|columns|] == columns;
    }

    /** What the table has before the writer adds to it. */
    ghost function Base(): seq<Column>
      requires database != null
      reads this, database, database.tables
    {
      if flushTable then [] else ColumnsNamed(database.tables, tableName)
    }

    lemma NewTableIsEmpty()
      requires database != null && (flushTable || !IsNamed(database.tables, tableName))
      ensures Base() == []
    {
      if !flushTable {
        NotNamed(database.tables, tableName);
      }
    }

    /** The table the writer writes to: a new one if the old one is not there or was flushed away. */
    method FindOrCreateTable() returns (table: Table, created: bool)
      requires Valid() && database != null && database.Valid()
      modifies database`tables
      ensures database.Valid() && table.Valid() && table.name == tableName
      ensures created <==> flushTable || !IsNamed(old(database.tables), tableName)
      ensures table.columns == old(Base())
      ensures created ==> fresh(table) && table !in database.tables
      ensures created ==> forall t :: t in database.tables <==> t in old(database.tables) && t.name != tableName
      ensures !created ==> database.tables == old(database.tables) && table in database.tables
    {
      var i := database.FindTableIndex(tableName);
      if flushTable && i >= 0 {
        database.DeleteTable(tableName);
      }
      if flushTable || i < 0 {
        if i < 0 {
          NotNamed(database.tables, tableName);
        }
        table := new Table(tableName);
        created := true;
      } else {
        table := database.tables[i];
        created := false;
        NamedAt(database.tables, tableName, i);
      }
    }

    /** A primary column can only come with a new table. */
    ghost predicate PrimaryIsOld()
      requires database != null
      reads this, database, database.tables
    {
      !flushTable && IsNamed(database.tables, tableName) ==>
        forall i :: 0 <= i < |columns| && columns[i].kind == Primary ==> Has(Base(), columns[i].attr)
    }

    /** Closing, as far as it concerns the columns. */
    method UpdateTable() returns (table: Table)
      requires Valid() && isOpen && database != null && database.Valid()
      requires Registry(Attrs(Base()) + Attrs(columns)) && PrimaryIsOld()
      modifies database`tables, database.tables
      ensures table in database.tables && table.Valid() && table.name == tableName && database.Valid()
      ensures table.columns == Committed(Extend(old(Base()), columns))
      ensures forall t :: t in old(database.tables) && old(t.name) != tableName ==> t in database.tables && t != table
      ensures forall t :: t in old(database.tables) && t != table ==> t.columns == old(t.columns) && t.name == old(t.name)
    {
      hide IndexMap, Registry, PrimaryIndex, ColumnsNamed, IsNamed, Table.Valid, Extend, Attrs, Has,
        LastUncommitted, AnyUncommitted, Missing, Committed, AllCommitted, NoneCommitted, DistinctColumns, Base;
      var created;
      ghost var base := Base();
      table, created := FindOrCreateTable();
      TableIsDistinct(table);
      UpdateColumns(table);
      if created {
        database.AddTable(table);
      } else {
        LastTells(base, columns);
        NewPrimary(base, columns);
        database.CommitColumns(table);
      }
    }

    /** No column came after opening, and the writer has all columns the table has. */
    ghost predicate RowsAreNew()
      requires database != null
      reads this, valueTable, database, database.tables
    {
      |valueTable.columns| == |columns| && forall i :: 0 <= i < |Base()| ==> Has(columns, Base()[i].attr)
    }

    lemma RowsAreNewIff()
      requires Valid() && isOpen && database != null && database.Valid()
      ensures FateOf(Committed(Extend(Base(), columns)), valueTable.columns) == Inserted <==> RowsAreNew()
    {
      hide Extend, Committed, FateOf, Has;
      NamedIsDistinct(database.tables, tableName);
      InsertedIff(Base(), columns, |valueTable.columns|);
    }

    /** Closing, as far as it concerns the rows: the count test, and what is committed. */
    method WriteRows(table: Table)
      requires Valid() && isOpen && database != null && table.Valid() && PrimaryIsKnown(table.columns, valueTable)
      modifies valueTable`newRows, database`sent
      ensures database.sent == old(database.sent) + Sent(table.name, valueTable.rows, FateOf(table.columns, valueTable.columns))
    {
      hide IndexMap, PrimaryIndex, Attrs, DistinctColumns, NoneCommitted, FateOf, SentOf, Sent, OldModified, SomeMarksTable;
      if |valueTable.columns| < |table.columns| {
        valueTable.ClearNewRowFlags();
      }
      RowsByFate(table.name, valueTable.rows, valueTable.newRows, valueTable.rowModified, valueTable.rowsModified,
        table.columns, valueTable.columns);
      database.CommitRows(table, valueTable);
    }

    /** Closing extends the table, then writes the rows, as new ones unless the table has more columns than the value table. */
    method Close() returns (table: Table)
      requires Valid() && isOpen && !inBeginRow && database != null && database.Valid()
      requires Registry(Attrs(Base()) + Attrs(columns)) && PrimaryIsOld()
      requires PrimaryIsKnown(Extend(Base(), columns), valueTable)
      modifies this, valueTable, database, database.tables
      ensures !isOpen && database == null && old(database).Valid()
      ensures table in old(database).tables && table.name == tableName == old(tableName)
      ensures table.columns == Committed(Extend(old(Base()), old(columns)))
      ensures old(flushTable || !IsNamed(database.tables, tableName)) ==> table.columns == Committed(old(columns))
      ensures forall t :: t in old(database.tables) && old(t.name) != tableName ==> t in old(database).tables && t != table
      ensures forall t :: t in old(database.tables) && t != table ==> t.columns == old(t.columns) && t.name == old(t.name)
      ensures var (fate, before, rows) := (FateOf(table.columns, old(valueTable.columns)), old(database.sent), old(valueTable.rows));
        && |old(database).sent| == |before| + (if fate == Dropped then 0 else |rows|)
        && old(database).sent[..|before|] == before
        && (fate != Dropped ==> forall r :: 0 <= r < |rows| ==>
             old(database).sent[|before| + r] == Statement(tableName, rows[r], fate))
      ensures FateOf(table.columns, old(valueTable.columns)) == Inserted <==> old(RowsAreNew())
    {
      hide IndexMap, Registry, PrimaryIndex, ColumnsNamed, IsNamed, Table.Valid, AllCommitted, Attrs, Extend,
        Committed, DistinctColumns, NoneCommitted, Base, PrimaryIsOld, RowsAreNew, FateOf, SentOf, Sent, OldModified, SomeMarksTable, Rows;
      ghost var all := Extend(Base(), columns);
      if flushTable || !IsNamed(database.tables, tableName) {
        NewTableIsEmpty();
        ExtendNothing(columns);
      }
      RowsAreNewIff();
      table := UpdateTable();
      KnownWhenCommitted(all, valueTable);
      WriteRows(table);
      SentTells(tableName, valueTable.rows, FateOf(table.columns, valueTable.columns));
      database := null;
      isOpen := false;
    }
  }

  lemma KnownWhenCommitted(columns: seq<Column>, values: ValueTable)
    requires PrimaryIsKnown(columns, values)
    ensures PrimaryIsKnown(Committed(columns), values)
  {
    CommittedPrimary(columns);
  }

  /** On a committed table the uncommitted columns are the writer's missing ones. */
  lemma NewPrimary(columns: seq<Column>, more: seq<Column>)
    requires AllCommitted(columns) && DistinctColumns(more)
    requires forall i :: 0 <= i < |more| && more[i].kind == Primary ==> Has(columns, more[i].attr)
    ensures forall i :: 0 <= i < |Extend(columns, more)| && !Extend(columns, more)[i].committed ==>
      Extend(columns, more)[i].kind != Primary
  {
    ExtendIsAppend(columns, more);
    MissingIff(columns, more);
  }

  lemma {:induction false} NamedIsDistinct(tables: seq<Table>, name: string)
    requires forall t :: t in tables ==> t.Valid()
    ensures DistinctColumns(ColumnsNamed(tables, name))
  {
    hide Table.Valid;
    if tables != [] {
      TableIsDistinct(tables[0]);
      NamedIsDistinct(tables[1..], name);
    }
  }

  lemma TableIsDistinct(table: Table)
    requires table.Valid()
    ensures DistinctColumns(table.columns)
  {
    assert forall i :: 0 <= i < |table.columns| ==> AttrsOf(table.columns)[i] == table.columns[i].attr;
  }

  lemma KeysAreFree(table: Table, attr: AttrId)
    requires table.Valid() && !Has(table.columns, attr)
    requires forall k :: 0 <= k < |table.columns| ==>
      table.columns[k].attr.name != attr.name && table.columns[k].attr.fourcc != attr.fourcc
    ensures attr !in table.attrIdIndexMap && attr.name !in table.nameIndexMap && attr.fourcc !in table.fourccIndexMap
  {
  }

  function DefaultColumns(attrs: seq<AttrId>): seq<Column> {
    seq(|attrs|, i requires 0 <= i < |attrs| => Column(attrs[i], Default, false))
  }

  /** A registered attribute the extended table lacks has a name and a fourCC it lacks, too. */
  lemma NoClash(columns: seq<Column>, more: seq<Column>, i: nat)
    requires i < |more| && Registry(Attrs(columns) + Attrs(more))
    requires !Has(Extend(columns, more[..i]), more[i].attr)
    ensures forall k :: 0 <= k < |Extend(columns, more[..i])| ==>
      && Extend(columns, more[..i])[k].attr.name != more[i].attr.name
      && Extend(columns, more[..i])[k].attr.fourcc != more[i].attr.fourcc
  {
    var all := Extend(columns, more[..i]);
    ExtendAttrs(columns, more[..i]);
    forall a | a in Attrs(more[..i]) ensures a in Attrs(more) {
      var k :| 0 <= k < i && more[..i][k].attr == a;
      assert more[k].attr == a;
    }
    forall k | 0 <= k < |all|
      ensures all[k].attr.name != more[i].attr.name && all[k].attr.fourcc != more[i].attr.fourcc
    {
      assert all[k].attr in Attrs(all) && more[i].attr in Attrs(more);
    }
  }
}
