/**
  The payloads of crates/zu-zu1/src/wal.rs: twelve kinds of record, written in
  little-endian and read back by a reader that checks every bound.
 */
module WalRecord {
  import opened Common

  // ---- numbers ----

  function Pow256(w: nat): (p: nat)
    ensures p > 0
  { if w == 0 then 1 else 256 * Pow256(w - 1) }

  /** The low `w` bytes of a number, least significant first. */
  function Le(n: nat, w: nat): (r: Bytes)
    ensures |r| == w
  { if w == 0 then [] else [n % 256] + Le(n / 256, w - 1) }

  function FromLe(s: Bytes): nat { if s == [] then 0 else s[0] + 256 * FromLe(s[1..]) }

  lemma {:induction false} LeReads(n: nat, w: nat)
    requires n < Pow256(w)
    ensures FromLe(Le(n, w)) == n
  {
    if w > 0 {
      LeReads(n / 256, w - 1);
      assert Le(n, w)[1..] == Le(n / 256, w - 1);
    }
  }

  lemma {:induction false} LeWrites(s: Bytes)
    ensures FromLe(s) < Pow256(|s|) && Le(FromLe(s), |s|) == s
  {
    if s != [] {
      LeWrites(s[1..]);
      assert s == [s[0]] + s[1..];
    }
  }

  // ---- what a reader makes of its bytes ----

  /** A value read off the front, and what is left. */
  datatype Got<T> = Got(value: T, rest: Bytes)

  function ReadNum(s: Bytes, w: nat): Option<Got<nat>> {
    if |s| < w then None else Some(Got(FromLe(s[..w]), s[w..]))
  }

  function ReadNums(s: Bytes, count: nat): Option<Got<seq<nat>>> {
    if count == 0 then Some(Got([], s))
    else
      var first :- ReadNum(s, 8);
      var more :- ReadNums(first.rest, count - 1);
      Some(Got([first.value] + more.value, more.rest))
  }

  function ReadRun(s: Bytes): Option<Got<Bytes>> {
    var len :- ReadNum(s, 4);
    if |len.rest| < len.value then None else Some(Got(len.rest[..len.value], len.rest[len.value..]))
  }

  function ReadRuns(s: Bytes, count: nat): Option<Got<seq<Bytes>>> {
    if count == 0 then Some(Got([], s))
    else
      var first :- ReadRun(s);
      var more :- ReadRuns(first.rest, count - 1);
      Some(Got([first.value] + more.value, more.rest))
  }

  function Nums(v: seq<nat>): Bytes { if v == [] then [] else Le(v[0], 8) + Nums(v[1..]) }

  function Run(s: Bytes): Bytes { Le(|s|, 4) + s }

  function Runs(v: seq<Bytes>): Bytes { if v == [] then [] else Run(v[0]) + Runs(v[1..]) }

  const U32 := 0x1_0000_0000
  const U64 := 0x1_0000_0000_0000_0000

  predicate AllU64(v: seq<nat>) { forall i :: 0 <= i < |v| ==> v[i] < U64 }

  lemma Widths()
    ensures Pow256(1) == 256 && Pow256(4) == U32 && Pow256(8) == U64
  {
    assert Pow256(4) == 256 * Pow256(3) && Pow256(3) == 256 * Pow256(2) && Pow256(2) == 256 * Pow256(1);
    assert Pow256(8) == 256 * Pow256(7) && Pow256(7) == 256 * Pow256(6) && Pow256(6) == 256 * Pow256(5);
    assert Pow256(5) == 256 * Pow256(4);
  }

  lemma NumReads(n: nat, w: nat, rest: Bytes)
    requires n < Pow256(w)
    ensures ReadNum(Le(n, w) + rest, w) == Some(Got(n, rest))
  {
    LeReads(n, w);
    assert (Le(n, w) + rest)[..w] == Le(n, w) && (Le(n, w) + rest)[w..] == rest;
  }

  lemma NumExact(s: Bytes, w: nat)
    ensures var r := ReadNum(s, w); r.Some? ==> r.value.value < Pow256(w) && s == Le(r.value.value, w) + r.value.rest
  {
    if |s| >= w {
      LeWrites(s[..w]);
      assert s == s[..w] + s[w..];
    }
  }

  lemma {:induction false} NumsRead(v: seq<nat>, rest: Bytes)
    requires AllU64(v)
    ensures ReadNums(Nums(v) + rest, |v|) == Some(Got(v, rest))
  {
    hide Le, ReadNum;
    if v == [] {
      assert Nums(v) + rest == rest;
    } else {
      Widths();
      assert v[0] < U64 && AllU64(v[1..]);
      hide Pow256, AllU64;
      var tail := Nums(v[1..]) + rest;
      NumReads(v[0], 8, tail);
      NumsRead(v[1..], rest);
      assert Nums(v) + rest == Le(v[0], 8) + tail;
      hide Nums;
      assert v == [v[0]] + v[1..];
    }
  }

  lemma {:induction false} NumsExact(s: Bytes, count: nat)
    ensures var r := ReadNums(s, count);
            r.Some? ==> |r.value.value| == count && AllU64(r.value.value) && s == Nums(r.value.value) + r.value.rest
    decreases count
  {
    hide Le, ReadNum;
    if count > 0 && ReadNum(s, 8).Some? {
      var first := ReadNum(s, 8).value;
      NumExact(s, 8);
      Widths();
      hide Pow256;
      NumsExact(first.rest, count - 1);
      var more := ReadNums(first.rest, count - 1);
      if more.Some? {
        var v := [first.value] + more.value.value;
        assert v[1..] == more.value.value;
        assert s == Le(first.value, 8) + (Nums(more.value.value) + more.value.rest);
        assert Nums(v) == Le(first.value, 8) + Nums(more.value.value);
      }
    } else if count == 0 {
      assert s == Nums([]) + s;
    }
  }

  lemma RunReads(s: Bytes, rest: Bytes)
    requires |s| < U32
    ensures ReadRun(Run(s) + rest) == Some(Got(s, rest))
  {
    hide Le, ReadNum;
    Widths();
    NumReads(|s|, 4, s + rest);
    assert Run(s) + rest == Le(|s|, 4) + (s + rest);
    assert (s + rest)[..|s|] == s && (s + rest)[|s|..] == rest;
  }

  lemma RunExact(s: Bytes)
    ensures var r := ReadRun(s); r.Some? ==> |r.value.value| < U32 && s == Run(r.value.value) + r.value.rest
  {
    hide Le, ReadNum;
    Widths();
    NumExact(s, 4);
    var r := ReadRun(s);
    if r.Some? {
      var len := ReadNum(s, 4).value;
      assert len.rest == r.value.value + r.value.rest;
      assert s == Le(len.value, 4) + (r.value.value + r.value.rest);
    }
  }

  predicate AllShort(v: seq<Bytes>) { forall i :: 0 <= i < |v| ==> |v[i]| < U32 }

  lemma {:induction false} RunsRead(v: seq<Bytes>, rest: Bytes)
    requires AllShort(v)
    ensures ReadRuns(Runs(v) + rest, |v|) == Some(Got(v, rest))
  {
    hide Run, ReadRun;
    if v == [] {
      assert Runs(v) + rest == rest;
    } else {
      assert |v[0]| < U32 && AllShort(v[1..]);
      hide AllShort;
      var tail := Runs(v[1..]) + rest;
      RunReads(v[0], tail);
      RunsRead(v[1..], rest);
      assert Runs(v) + rest == Run(v[0]) + tail;
      hide Runs;
      assert v == [v[0]] + v[1..];
    }
  }

  lemma {:induction false} RunsExact(s: Bytes, count: nat)
    ensures var r := ReadRuns(s, count);
            r.Some? ==> |r.value.value| == count && AllShort(r.value.value) && s == Runs(r.value.value) + r.value.rest
    decreases count
  {
    hide Run, ReadRun;
    if count > 0 && ReadRun(s).Some? {
      var first := ReadRun(s).value;
      RunExact(s);
      RunsExact(first.rest, count - 1);
      var more := ReadRuns(first.rest, count - 1);
      if more.Some? {
        var v := [first.value] + more.value.value;
        assert v[1..] == more.value.value;
        assert s == Run(first.value) + (Runs(more.value.value) + more.value.rest);
        assert Runs(v) == Run(first.value) + Runs(more.value.value);
      }
    } else if count == 0 {
      assert s == Runs([]) + s;
    }
  }

  // ---- values and columns ----

  datatype Values = Ints(ints: seq<nat>) | Strs(strs: seq<Bytes>) | Nulls(count: nat) {
    function Len(): nat {
      match this
      case Ints(v) => |v|
      case Strs(v) => |v|
      case Nulls(n) => n
    }

    predicate Valid() { Len() < U32 && (Ints? ==> AllU64(ints)) && (Strs? ==> AllShort(strs)) }

    function Tag(): Byte { if Ints? then 0 else if Strs? then 1 else 2 }

    function Items(): Bytes {
      match this
      case Ints(v) => Nums(v)
      case Strs(v) => Runs(v)
      case Nulls(_) => []
    }

    function Text(): Bytes { [Tag()] + (Le(Len(), 4) + Items()) }
  }

  function ReadItems(tag: nat, count: nat, s: Bytes): Option<Got<Values>> {
    match tag
    case 0 =>
      var v :- ReadNums(s, count);
      Some(Got(Ints(v.value), v.rest))
    case 1 =>
      var v :- ReadRuns(s, count);
      Some(Got(Strs(v.value), v.rest))
    case 2 => Some(Got(Nulls(count), s))
    case _ => None
  }

  function ReadValues(s: Bytes): Option<Got<Values>> {
    var tag :- ReadNum(s, 1);
    var count :- ReadNum(tag.rest, 4);
    ReadItems(tag.value, count.value, count.rest)
  }

  lemma OneByte(b: Byte)
    ensures Le(b, 1) == [b]
  {
    assert Le(b, 1) == [b % 256] + Le(b / 256, 0);
  }

  lemma ItemsRead(v: Values, rest: Bytes)
    requires v.Valid()
    ensures ReadItems(v.Tag(), v.Len(), v.Items() + rest) == Some(Got(v, rest))
  {
    match v
    case Ints(ints) => NumsRead(ints, rest);
    case Strs(strs) => RunsRead(strs, rest);
    case Nulls(_) => assert v.Items() + rest == rest;
  }

  lemma ItemsExact(tag: nat, count: nat, s: Bytes)
    requires count < U32
    ensures var r := ReadItems(tag, count, s);
            r.Some? ==> r.value.value.Valid() && r.value.value.Tag() == tag && r.value.value.Len() == count &&
                        s == r.value.value.Items() + r.value.rest
  {
    if tag == 0 {
      NumsExact(s, count);
    } else if tag == 1 {
      RunsExact(s, count);
    } else {
      assert [] + s == s;
    }
  }

  lemma ValuesRead(v: Values, rest: Bytes)
    requires v.Valid()
    ensures ReadValues(v.Text() + rest) == Some(Got(v, rest))
  {
    hide Le, ReadNum, ReadItems, Values.Items;
    Widths();
    var items := v.Items() + rest;
    OneByte(v.Tag());
    assert v.Text() + rest == Le(v.Tag(), 1) + (Le(v.Len(), 4) + items);
    NumReads(v.Tag(), 1, Le(v.Len(), 4) + items);
    NumReads(v.Len(), 4, items);
    ItemsRead(v, rest);
  }

  lemma ValuesExact(s: Bytes)
    ensures var r := ReadValues(s); r.Some? ==> r.value.value.Valid() && s == r.value.value.Text() + r.value.rest
  {
    hide Le, ReadNum, ReadItems, Values.Items;
    Widths();
    NumExact(s, 1);
    var tag := ReadNum(s, 1);
    if tag.Some? {
      NumExact(tag.value.rest, 4);
      var count := ReadNum(tag.value.rest, 4);
      if count.Some? {
        ItemsExact(tag.value.value, count.value.value, count.value.rest);
        var r := ReadValues(s);
        if r.Some? {
          var v, rest := r.value.value, r.value.rest;
          OneByte(v.Tag());
          assert s == Le(v.Tag(), 1) + (Le(v.Len(), 4) + (v.Items() + rest));
          assert v.Text() + rest == [v.Tag()] + (Le(v.Len(), 4) + (v.Items() + rest));
        }
      }
    }
  }

  datatype Column = Column(col: nat, values: Values) {
    predicate Valid(rows: Option<nat>) {
      col < U32 && values.Valid() && (rows.Some? ==> values.Len() == rows.value)
    }

    function Text(): Bytes { Le(col, 4) + values.Text() }
  }

  function ColumnsText(cols: seq<Column>): Bytes {
    if cols == [] then [] else cols[0].Text() + ColumnsText(cols[1..])
  }

  predicate AllColumns(cols: seq<Column>, rows: Option<nat>) { forall i :: 0 <= i < |cols| ==> cols[i].Valid(rows) }

  /** A column whose values are as many as the rows, where there is a number of rows to be. */
  function ReadColumn(s: Bytes, rows: Option<nat>): Option<Got<Column>> {
    var col :- ReadNum(s, 4);
    var values :- ReadValues(col.rest);
    if rows.Some? && values.value.Len() != rows.value then None
    else Some(Got(Column(col.value, values.value), values.rest))
  }

  function ReadColumns(s: Bytes, count: nat, rows: Option<nat>): Option<Got<seq<Column>>>
    decreases count
  {
    if count == 0 then Some(Got([], s))
    else
      var first :- ReadColumn(s, rows);
      var more :- ReadColumns(first.rest, count - 1, rows);
      Some(Got([first.value] + more.value, more.rest))
  }

  lemma ColumnReads(c: Column, rows: Option<nat>, rest: Bytes)
    requires c.Valid(rows)
    ensures ReadColumn(c.Text() + rest, rows) == Some(Got(c, rest))
  {
    hide Le, ReadNum, ReadValues, Values.Text;
    Widths();
    assert c.Text() + rest == Le(c.col, 4) + (c.values.Text() + rest);
    NumReads(c.col, 4, c.values.Text() + rest);
    ValuesRead(c.values, rest);
  }

  lemma ColumnExact(s: Bytes, rows: Option<nat>)
    ensures var r := ReadColumn(s, rows);
            r.Some? ==> r.value.value.Valid(rows) && s == r.value.value.Text() + r.value.rest
  {
    hide Le, ReadNum, ReadValues, Values.Text;
    Widths();
    NumExact(s, 4);
    var col := ReadNum(s, 4);
    if col.Some? {
      ValuesExact(col.value.rest);
      var r := ReadColumn(s, rows);
      if r.Some? {
        var c := r.value.value;
        assert s == Le(c.col, 4) + (c.values.Text() + r.value.rest);
        assert c.Text() + r.value.rest == Le(c.col, 4) + (c.values.Text() + r.value.rest);
      }
    }
  }

  lemma {:induction false} ColumnsRead(cols: seq<Column>, rows: Option<nat>, rest: Bytes)
    requires AllColumns(cols, rows)
    ensures ReadColumns(ColumnsText(cols) + rest, |cols|, rows) == Some(Got(cols, rest))
  {
    hide Column.Text, ReadColumn, Column.Valid;
    if cols == [] {
      assert ColumnsText(cols) + rest == rest;
    } else {
      ColumnReads(cols[0], rows, ColumnsText(cols[1..]) + rest);
      ColumnsRead(cols[1..], rows, rest);
      assert ColumnsText(cols) + rest == cols[0].Text() + (ColumnsText(cols[1..]) + rest);
      assert cols == [cols[0]] + cols[1..];
    }
  }

  lemma {:induction false} ColumnsExact(s: Bytes, count: nat, rows: Option<nat>)
    ensures var r := ReadColumns(s, count, rows);
            r.Some? ==> |r.value.value| == count && AllColumns(r.value.value, rows) &&
                        s == ColumnsText(r.value.value) + r.value.rest
    decreases count
  {
    hide Column.Text, ReadColumn, Column.Valid;
    if count > 0 && ReadColumn(s, rows).Some? {
      var first := ReadColumn(s, rows).value;
      ColumnExact(s, rows);
      ColumnsExact(first.rest, count - 1, rows);
      var more := ReadColumns(first.rest, count - 1, rows);
      if more.Some? {
        var cols := [first.value] + more.value.value;
        assert cols[1..] == more.value.value;
        assert s == first.value.Text() + (ColumnsText(more.value.value) + more.value.rest);
        assert ColumnsText(cols) == first.value.Text() + ColumnsText(more.value.value);
      }
    } else if count == 0 {
      assert s == ColumnsText([]) + s;
    }
  }

  // ---- records ----

  datatype Record =
    | TxnBegin
    | NodeInsert(table: nat, cols: seq<Column>)
    | RelInsert(rel: nat, src: seq<nat>, dst: seq<nat>, cols: seq<Column>)
    | Update(table: nat, group: nat, col: nat, offsets: seq<nat>, values: Values)
    | Delete(table: nat, ids: seq<nat>)
    | RelDelete(rel: nat, src: seq<nat>, dst: seq<nat>)
    | RelUpdate(rel: nat, col: nat, src: seq<nat>, dst: seq<nat>, values: Values)
    | LabelUpdate(table: nat, offsets: seq<nat>, add: nat, remove: nat)
    | DdlCatalog(delta: Bytes)
    | TxnCommit
    | IngestRef(table: nat, ptrs: seq<nat>)
    | CheckpointNote
  {
    function Kind(): (k: Byte)
      ensures 1 <= k <= 12
    {
      match this
      case TxnBegin => 1
      case NodeInsert(_, _) => 2
      case RelInsert(_, _, _, _) => 3
      case Update(_, _, _, _, _) => 4
      case Delete(_, _) => 5
      case DdlCatalog(_) => 6
      case TxnCommit => 7
      case IngestRef(_, _) => 8
      case CheckpointNote => 9
      case RelDelete(_, _, _) => 10
      case RelUpdate(_, _, _, _, _) => 11
      case LabelUpdate(_, _, _, _) => 12
    }

    /** Lists that go together as long as each other, and a label not both set and cleared. */
    predicate Valid() {
      match this
      case TxnBegin => true
      case NodeInsert(table, cols) => table < U32 && |cols| < U32 && AllColumns(cols, None)
      case RelInsert(rel, src, dst, cols) =>
        rel < U32 && Paired(src, dst) && |cols| < U32 && AllColumns(cols, Some(|src|))
      case Update(table, group, col, offsets, values) =>
        table < U32 && group < U64 && col < U32 && Listed(offsets) && values.Valid() && values.Len() == |offsets|
      case Delete(table, ids) => table < U32 && Listed(ids)
      case RelDelete(rel, src, dst) => rel < U32 && Paired(src, dst)
      case RelUpdate(rel, col, src, dst, values) =>
        rel < U32 && col < U32 && Paired(src, dst) && values.Valid() && values.Len() == |src|
      case LabelUpdate(table, offsets, add, remove) =>
        table < U32 && Listed(offsets) && add < U64 && remove < U64 && !Share(add, remove)
      case DdlCatalog(_) => true
      case TxnCommit => true
      case IngestRef(table, ptrs) => table < U32 && Listed(ptrs)
      case CheckpointNote => true
    }

    function Payload(): Bytes {
      match this
      case TxnBegin => []
      case NodeInsert(table, cols) => Le(table, 4) + (Le(|cols|, 4) + ColumnsText(cols))
      case RelInsert(rel, src, dst, cols) =>
        Le(rel, 4) + (PairsText(src, dst) + (Le(|cols|, 4) + ColumnsText(cols)))
      case Update(table, group, col, offsets, values) =>
        Le(table, 4) + (Le(group, 8) + (Le(col, 4) + (ListText(offsets) + values.Text())))
      case Delete(table, ids) => Le(table, 4) + ListText(ids)
      case RelDelete(rel, src, dst) => Le(rel, 4) + PairsText(src, dst)
      case RelUpdate(rel, col, src, dst, values) =>
        Le(rel, 4) + (Le(col, 4) + (PairsText(src, dst) + values.Text()))
      case LabelUpdate(table, offsets, add, remove) =>
        Le(table, 4) + (Le(add, 8) + (Le(remove, 8) + ListText(offsets)))
      case DdlCatalog(delta) => delta
      case TxnCommit => []
      case IngestRef(table, ptrs) => Le(table, 4) + ListText(ptrs)
      case CheckpointNote => []
    }
  }

  /** `add & remove != 0`. */
  predicate Share(a: nat, b: nat) {
    a != 0 && b != 0 && ((a % 2 == 1 && b % 2 == 1) || Share(a / 2, b / 2))
  }

  predicate Listed(v: seq<nat>) { |v| < U32 && AllU64(v) }

  predicate Paired(a: seq<nat>, b: seq<nat>) { |a| == |b| && Listed(a) && Listed(b) }

  function ListText(v: seq<nat>): Bytes { Le(|v|, 4) + Nums(v) }

  function PairsText(a: seq<nat>, b: seq<nat>): Bytes { Le(|a|, 4) + (Nums(a) + Nums(b)) }

  function ReadList(s: Bytes): Option<Got<seq<nat>>> {
    var count :- ReadNum(s, 4);
    ReadNums(count.rest, count.value)
  }

  /** Two lists under one count. */
  function ReadPairs(s: Bytes): Option<Got<(seq<nat>, seq<nat>)>> {
    var count :- ReadNum(s, 4);
    var a :- ReadNums(count.rest, count.value);
    var b :- ReadNums(a.rest, count.value);
    Some(Got((a.value, b.value), b.rest))
  }

  function ReadTable(s: Bytes): Option<Got<(nat, seq<nat>)>> {
    var table :- ReadNum(s, 4);
    var list :- ReadList(table.rest);
    Some(Got((table.value, list.value), list.rest))
  }

  function ReadCols(s: Bytes, rows: Option<nat>): Option<Got<seq<Column>>> {
    var count :- ReadNum(s, 4);
    ReadColumns(count.rest, count.value, rows)
  }

  function ReadNodeInsert(s: Bytes): Option<Got<Record>> {
    var table :- ReadNum(s, 4);
    var cols :- ReadCols(table.rest, None);
    Some(Got(NodeInsert(table.value, cols.value), cols.rest))
  }

  function ReadRelInsert(s: Bytes): Option<Got<Record>> {
    var rel :- ReadNum(s, 4);
    var pairs :- ReadPairs(rel.rest);
    var cols :- ReadCols(pairs.rest, Some(|pairs.value.0|));
    Some(Got(RelInsert(rel.value, pairs.value.0, pairs.value.1, cols.value), cols.rest))
  }

  function ReadUpdate(s: Bytes): Option<Got<Record>> {
    var table :- ReadNum(s, 4);
    var group :- ReadNum(table.rest, 8);
    var col :- ReadNum(group.rest, 4);
    var offsets :- ReadList(col.rest);
    var values :- ReadValues(offsets.rest);
    if values.value.Len() != |offsets.value| then None
    else Some(Got(Update(table.value, group.value, col.value, offsets.value, values.value), values.rest))
  }

  function ReadRelDelete(s: Bytes): Option<Got<Record>> {
    var rel :- ReadNum(s, 4);
    var pairs :- ReadPairs(rel.rest);
    Some(Got(RelDelete(rel.value, pairs.value.0, pairs.value.1), pairs.rest))
  }

  function ReadRelUpdate(s: Bytes): Option<Got<Record>> {
    var rel :- ReadNum(s, 4);
    var col :- ReadNum(rel.rest, 4);
    var pairs :- ReadPairs(col.rest);
    var values :- ReadValues(pairs.rest);
    if values.value.Len() != |pairs.value.0| then None
    else Some(Got(RelUpdate(rel.value, col.value, pairs.value.0, pairs.value.1, values.value), values.rest))
  }

  function ReadLabelUpdate(s: Bytes): Option<Got<Record>> {
    var table :- ReadNum(s, 4);
    var add :- ReadNum(table.rest, 8);
    var remove :- ReadNum(add.rest, 8);
    var offsets :- ReadList(remove.rest);
    if Share(add.value, remove.value) then None
    else Some(Got(LabelUpdate(table.value, offsets.value, add.value, remove.value), offsets.rest))
  }

  /** A record of a kind off the front of a payload. */
  function ReadFront(kind: Byte, s: Bytes): Option<Got<Record>> {
    match kind
    case 1 => Some(Got(TxnBegin, s))
    case 2 => ReadNodeInsert(s)
    case 3 => ReadRelInsert(s)
    case 4 => ReadUpdate(s)
    case 5 =>
      var t :- ReadTable(s);
      Some(Got(Delete(t.value.0, t.value.1), t.rest))
    case 6 => Some(Got(DdlCatalog(s), []))
    case 7 => Some(Got(TxnCommit, s))
    case 8 =>
      var t :- ReadTable(s);
      Some(Got(IngestRef(t.value.0, t.value.1), t.rest))
    case 9 => Some(Got(CheckpointNote, s))
    case 10 => ReadRelDelete(s)
    case 11 => ReadRelUpdate(s)
    case 12 => ReadLabelUpdate(s)
    case _ => None
  }

  /** A record that takes up the whole payload. */
  function ReadRecord(kind: Byte, s: Bytes): Option<Record> {
    var r :- ReadFront(kind, s);
    if r.rest == [] then Some(r.value) else None
  }

  // ---- written and read ----

  lemma ListReads(v: seq<nat>, rest: Bytes)
    requires Listed(v)
    ensures ReadList(ListText(v) + rest) == Some(Got(v, rest))
  {
    hide Le, ReadNum, ReadNums, Nums;
    Widths();
    NumReads(|v|, 4, Nums(v) + rest);
    NumsRead(v, rest);
    assert ListText(v) + rest == Le(|v|, 4) + (Nums(v) + rest);
  }

  lemma ListExact(s: Bytes)
    ensures var r := ReadList(s); r.Some? ==> Listed(r.value.value) && s == ListText(r.value.value) + r.value.rest
  {
    hide Le, ReadNum, ReadNums, Nums;
    Widths();
    NumExact(s, 4);
    var count := ReadNum(s, 4);
    if count.Some? {
      NumsExact(count.value.rest, count.value.value);
      var r := ReadList(s);
      if r.Some? {
        var v, rest := r.value.value, r.value.rest;
        assert s == Le(|v|, 4) + (Nums(v) + rest) && ListText(v) + rest == Le(|v|, 4) + (Nums(v) + rest);
      }
    }
  }

  lemma PairsRead(a: seq<nat>, b: seq<nat>, rest: Bytes)
    requires Paired(a, b)
    ensures ReadPairs(PairsText(a, b) + rest) == Some(Got((a, b), rest))
  {
    hide Le, ReadNum, ReadNums, Nums;
    Widths();
    NumReads(|a|, 4, Nums(a) + (Nums(b) + rest));
    NumsRead(a, Nums(b) + rest);
    NumsRead(b, rest);
    assert PairsText(a, b) + rest == Le(|a|, 4) + (Nums(a) + (Nums(b) + rest));
  }

  lemma PairsExact(s: Bytes)
    ensures var r := ReadPairs(s);
            r.Some? ==> Paired(r.value.value.0, r.value.value.1) &&
                        s == PairsText(r.value.value.0, r.value.value.1) + r.value.rest
  {
    hide Le, ReadNum, ReadNums, Nums;
    Widths();
    NumExact(s, 4);
    var count := ReadNum(s, 4);
    if count.Some? {
      NumsExact(count.value.rest, count.value.value);
      var a := ReadNums(count.value.rest, count.value.value);
      if a.Some? {
        NumsExact(a.value.rest, count.value.value);
        var r := ReadPairs(s);
        if r.Some? {
          var x, y, rest := r.value.value.0, r.value.value.1, r.value.rest;
          assert s == Le(|x|, 4) + (Nums(x) + (Nums(y) + rest));
          assert PairsText(x, y) + rest == Le(|x|, 4) + (Nums(x) + (Nums(y) + rest));
        }
      }
    }
  }

  lemma ColsRead(cols: seq<Column>, rows: Option<nat>, rest: Bytes)
    requires |cols| < U32 && AllColumns(cols, rows)
    ensures ReadCols(Le(|cols|, 4) + ColumnsText(cols) + rest, rows) == Some(Got(cols, rest))
  {
    hide Le, ReadNum, ReadColumns, ColumnsText, AllColumns;
    Widths();
    NumReads(|cols|, 4, ColumnsText(cols) + rest);
    ColumnsRead(cols, rows, rest);
    assert Le(|cols|, 4) + ColumnsText(cols) + rest == Le(|cols|, 4) + (ColumnsText(cols) + rest);
  }

  lemma ColsExact(s: Bytes, rows: Option<nat>)
    ensures var r := ReadCols(s, rows);
            r.Some? ==> |r.value.value| < U32 && AllColumns(r.value.value, rows) &&
                        s == Le(|r.value.value|, 4) + ColumnsText(r.value.value) + r.value.rest
  {
    hide Le, ReadNum, ReadColumns, ColumnsText, AllColumns;
    Widths();
    NumExact(s, 4);
    var count := ReadNum(s, 4);
    if count.Some? {
      ColumnsExact(count.value.rest, count.value.value, rows);
      var r := ReadCols(s, rows);
      if r.Some? {
        var cols, rest := r.value.value, r.value.rest;
        assert s == Le(|cols|, 4) + (ColumnsText(cols) + rest);
        assert Le(|cols|, 4) + ColumnsText(cols) + rest == Le(|cols|, 4) + (ColumnsText(cols) + rest);
      }
    }
  }

  lemma TableReads(table: nat, v: seq<nat>, rest: Bytes)
    requires table < U32 && Listed(v)
    ensures ReadTable(Le(table, 4) + ListText(v) + rest) == Some(Got((table, v), rest))
  {
    hide Le, ReadNum, ReadList, ListText, Listed;
    Widths();
    NumReads(table, 4, ListText(v) + rest);
    ListReads(v, rest);
    assert Le(table, 4) + ListText(v) + rest == Le(table, 4) + (ListText(v) + rest);
  }

  lemma TableExact(s: Bytes)
    ensures var r := ReadTable(s);
            r.Some? ==> r.value.value.0 < U32 && Listed(r.value.value.1) &&
                        s == Le(r.value.value.0, 4) + ListText(r.value.value.1) + r.value.rest
  {
    hide Le, ReadNum, ReadList, ListText, Listed;
    Widths();
    NumExact(s, 4);
    var table := ReadNum(s, 4);
    if table.Some? {
      ListExact(table.value.rest);
      var r := ReadTable(s);
      if r.Some? {
        var t, v, rest := r.value.value.0, r.value.value.1, r.value.rest;
        assert s == Le(t, 4) + (ListText(v) + rest);
        assert Le(t, 4) + ListText(v) + rest == Le(t, 4) + (ListText(v) + rest);
      }
    }
  }

  lemma NodeInsertReads(r: Record)
    requires r.NodeInsert? && r.Valid()
    ensures ReadNodeInsert(r.Payload()) == Some(Got(r, []))
  {
    hide Le, ReadNum, ReadCols, ColumnsText, AllColumns;
    Widths();
    var tail := Le(|r.cols|, 4) + ColumnsText(r.cols);
    NumReads(r.table, 4, tail);
    ColsRead(r.cols, None, []);
    assert tail + [] == tail;
  }

  lemma NodeInsertExact(s: Bytes)
    ensures var r := ReadNodeInsert(s);
            r.Some? ==> r.value.value.NodeInsert? && r.value.value.Valid() &&
                        s == r.value.value.Payload() + r.value.rest
  {
    hide Le, ReadNum, ReadCols, ColumnsText, AllColumns;
    Widths();
    NumExact(s, 4);
    var table := ReadNum(s, 4);
    if table.Some? {
      ColsExact(table.value.rest, None);
      var r := ReadNodeInsert(s);
      if r.Some? {
        var n, rest := r.value.value, r.value.rest;
        var tail := Le(|n.cols|, 4) + ColumnsText(n.cols);
        assert s == Le(n.table, 4) + (tail + rest);
        assert n.Payload() + rest == Le(n.table, 4) + (tail + rest);
      }
    }
  }

  lemma RelInsertReads(r: Record)
    requires r.RelInsert? && r.Valid()
    ensures ReadRelInsert(r.Payload()) == Some(Got(r, []))
  {
    hide Le, ReadNum, ReadCols, ColumnsText, AllColumns, ReadPairs, PairsText, Listed;
    Widths();
    var tail := Le(|r.cols|, 4) + ColumnsText(r.cols);
    NumReads(r.rel, 4, PairsText(r.src, r.dst) + tail);
    PairsRead(r.src, r.dst, tail);
    ColsRead(r.cols, Some(|r.src|), []);
    assert tail + [] == tail;
  }

  lemma RelInsertExact(s: Bytes)
    ensures var r := ReadRelInsert(s);
            r.Some? ==> r.value.value.RelInsert? && r.value.value.Valid() &&
                        s == r.value.value.Payload() + r.value.rest
  {
    hide Le, ReadNum, ReadCols, ColumnsText, AllColumns, ReadPairs, PairsText, Listed;
    Widths();
    NumExact(s, 4);
    var rel := ReadNum(s, 4);
    if rel.Some? {
      PairsExact(rel.value.rest);
      var pairs := ReadPairs(rel.value.rest);
      if pairs.Some? {
        ColsExact(pairs.value.rest, Some(|pairs.value.value.0|));
        var r := ReadRelInsert(s);
        if r.Some? {
          var n, rest := r.value.value, r.value.rest;
          var tail := Le(|n.cols|, 4) + ColumnsText(n.cols);
          var both := PairsText(n.src, n.dst);
          assert s == Le(n.rel, 4) + (both + (tail + rest));
          assert n.Payload() + rest == Le(n.rel, 4) + (both + (tail + rest));
        }
      }
    }
  }

  lemma UpdateReads(r: Record)
    requires r.Update? && r.Valid()
    ensures ReadUpdate(r.Payload()) == Some(Got(r, []))
  {
    hide Le, ReadNum, ReadList, ListText, Listed, ReadValues, Values.Text, Values.Valid;
    Widths();
    var values := r.values.Text();
    var offsets := ListText(r.offsets) + values;
    var col := Le(r.col, 4) + offsets;
    NumReads(r.table, 4, Le(r.group, 8) + col);
    NumReads(r.group, 8, col);
    NumReads(r.col, 4, offsets);
    ListReads(r.offsets, values);
    ValuesRead(r.values, []);
    assert values + [] == values;
  }

  lemma UpdateExact(s: Bytes)
    ensures var r := ReadUpdate(s);
            r.Some? ==> r.value.value.Update? && r.value.value.Valid() &&
                        s == r.value.value.Payload() + r.value.rest
  {
    hide Le, ReadNum, ReadList, ListText, Listed, ReadValues, Values.Text, Values.Valid;
    Widths();
    var r := ReadUpdate(s);
    NumExact(s, 4);
    if r.Some? {
      var table := ReadNum(s, 4).value;
      NumExact(table.rest, 8);
      var group := ReadNum(table.rest, 8).value;
      NumExact(group.rest, 4);
      var col := ReadNum(group.rest, 4).value;
      ListExact(col.rest);
      var offsets := ReadList(col.rest).value;
      ValuesExact(offsets.rest);
      var n, rest := r.value.value, r.value.rest;
      var list, values := ListText(n.offsets), n.values.Text();
      assert s == Le(n.table, 4) + (Le(n.group, 8) + (Le(n.col, 4) + (list + (values + rest))));
      assert n.Payload() + rest == Le(n.table, 4) + (Le(n.group, 8) + (Le(n.col, 4) + (list + (values + rest))));
    }
  }

  lemma RelDeleteReads(r: Record)
    requires r.RelDelete? && r.Valid()
    ensures ReadRelDelete(r.Payload()) == Some(Got(r, []))
  {
    hide Le, ReadNum, ReadPairs, PairsText, Listed;
    Widths();
    var both := PairsText(r.src, r.dst);
    NumReads(r.rel, 4, both);
    PairsRead(r.src, r.dst, []);
    assert both + [] == both;
  }

  lemma RelDeleteExact(s: Bytes)
    ensures var r := ReadRelDelete(s);
            r.Some? ==> r.value.value.RelDelete? && r.value.value.Valid() &&
                        s == r.value.value.Payload() + r.value.rest
  {
    hide Le, ReadNum, ReadPairs, PairsText, Listed;
    Widths();
    var r := ReadRelDelete(s);
    NumExact(s, 4);
    if r.Some? {
      var rel := ReadNum(s, 4).value;
      PairsExact(rel.rest);
      var n, rest := r.value.value, r.value.rest;
      var both := PairsText(n.src, n.dst);
      assert s == Le(n.rel, 4) + (both + rest) && n.Payload() + rest == Le(n.rel, 4) + (both + rest);
    }
  }

  lemma RelUpdateReads(r: Record)
    requires r.RelUpdate? && r.Valid()
    ensures ReadRelUpdate(r.Payload()) == Some(Got(r, []))
  {
    hide Le, ReadNum, ReadPairs, PairsText, Listed, ReadValues, Values.Text, Values.Valid;
    Widths();
    var values := r.values.Text();
    var both := PairsText(r.src, r.dst) + values;
    NumReads(r.rel, 4, Le(r.col, 4) + both);
    NumReads(r.col, 4, both);
    PairsRead(r.src, r.dst, values);
    ValuesRead(r.values, []);
    assert values + [] == values;
  }

  lemma RelUpdateExact(s: Bytes)
    ensures var r := ReadRelUpdate(s);
            r.Some? ==> r.value.value.RelUpdate? && r.value.value.Valid() &&
                        s == r.value.value.Payload() + r.value.rest
  {
    hide Le, ReadNum, ReadPairs, PairsText, Listed, ReadValues, Values.Text, Values.Valid;
    Widths();
    var r := ReadRelUpdate(s);
    NumExact(s, 4);
    if r.Some? {
      var rel := ReadNum(s, 4).value;
      NumExact(rel.rest, 4);
      var col := ReadNum(rel.rest, 4).value;
      PairsExact(col.rest);
      var pairs := ReadPairs(col.rest).value;
      ValuesExact(pairs.rest);
      var n, rest := r.value.value, r.value.rest;
      var both, values := PairsText(n.src, n.dst), n.values.Text();
      assert s == Le(n.rel, 4) + (Le(n.col, 4) + (both + (values + rest)));
      assert n.Payload() + rest == Le(n.rel, 4) + (Le(n.col, 4) + (both + (values + rest)));
    }
  }

  lemma LabelUpdateReads(r: Record)
    requires r.LabelUpdate? && r.Valid()
    ensures ReadLabelUpdate(r.Payload()) == Some(Got(r, []))
  {
    hide Le, ReadNum, ReadList, ListText, Listed, Share;
    Widths();
    var list := ListText(r.offsets);
    NumReads(r.table, 4, Le(r.add, 8) + (Le(r.remove, 8) + list));
    NumReads(r.add, 8, Le(r.remove, 8) + list);
    NumReads(r.remove, 8, list);
    ListReads(r.offsets, []);
    assert list + [] == list;
  }

  lemma LabelUpdateExact(s: Bytes)
    ensures var r := ReadLabelUpdate(s);
            r.Some? ==> r.value.value.LabelUpdate? && r.value.value.Valid() &&
                        s == r.value.value.Payload() + r.value.rest
  {
    hide Le, ReadNum, ReadList, ListText, Listed, Share;
    Widths();
    var r := ReadLabelUpdate(s);
    NumExact(s, 4);
    if r.Some? {
      var table := ReadNum(s, 4).value;
      NumExact(table.rest, 8);
      var add := ReadNum(table.rest, 8).value;
      NumExact(add.rest, 8);
      var remove := ReadNum(add.rest, 8).value;
      ListExact(remove.rest);
      var n, rest := r.value.value, r.value.rest;
      var list := ListText(n.offsets);
      assert s == Le(n.table, 4) + (Le(n.add, 8) + (Le(n.remove, 8) + (list + rest)));
      assert n.Payload() + rest == Le(n.table, 4) + (Le(n.add, 8) + (Le(n.remove, 8) + (list + rest)));
    }
  }

  lemma RecordReads(r: Record)
    requires r.Valid()
    ensures ReadRecord(r.Kind(), r.Payload()) == Some(r)
  {
    hide Le, ReadTable, ReadNodeInsert, ReadRelInsert, ReadUpdate, ReadRelDelete, ReadRelUpdate, ReadLabelUpdate;
    hide ListText, Listed;
    match r
    case NodeInsert(_, _) => NodeInsertReads(r);
    case RelInsert(_, _, _, _) => RelInsertReads(r);
    case Update(_, _, _, _, _) => UpdateReads(r);
    case Delete(table, ids) =>
      TableReads(table, ids, []);
      assert Le(table, 4) + ListText(ids) + [] == r.Payload();
    case IngestRef(table, ptrs) =>
      TableReads(table, ptrs, []);
      assert Le(table, 4) + ListText(ptrs) + [] == r.Payload();
    case RelDelete(_, _, _) => RelDeleteReads(r);
    case RelUpdate(_, _, _, _, _) => RelUpdateReads(r);
    case LabelUpdate(_, _, _, _) => LabelUpdateReads(r);
    case _ =>
  }

  /** What is read is well formed, and its payload is what it was read from. */
  lemma RecordExact(kind: Byte, s: Bytes)
    ensures var r := ReadRecord(kind, s);
            r.Some? ==> r.value.Valid() && r.value.Kind() == kind && r.value.Payload() == s
  {
    hide Le, ReadTable, ReadNodeInsert, ReadRelInsert, ReadUpdate, ReadRelDelete, ReadRelUpdate, ReadLabelUpdate;
    hide ListText, Listed;
    match kind
    case 2 => NodeInsertExact(s);
    case 3 => RelInsertExact(s);
    case 4 => UpdateExact(s);
    case 5 => TableExact(s);
    case 8 => TableExact(s);
    case 10 => RelDeleteExact(s);
    case 11 => RelUpdateExact(s);
    case 12 => LabelUpdateExact(s);
    case _ =>
  }

  /** A record survives the log exactly when it is well formed. */
  lemma RecordRoundTripIff(r: Record)
    ensures ReadRecord(r.Kind(), r.Payload()) == Some(r) <==> r.Valid()
  {
    hide ReadRecord, Record.Payload, Record.Valid;
    RecordExact(r.Kind(), r.Payload());
    if r.Valid() { RecordReads(r); }
  }
}
