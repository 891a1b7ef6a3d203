/**
  The encoder and the bounds-checked reader of crates/zu-zu1/src/wal.rs, against
  what `WalRecord` says their bytes mean.
 */
module WalCodec {
  import opened Common
  import opened WalRecord

  // ---- writing ----

  method PutNums(had: Bytes, v: seq<nat>) returns (out: Bytes)
    ensures out == had + Nums(v)
  {
    out := had;
    for i := 0 to |v|
      invariant out + Nums(v[i..]) == had + Nums(v)
    {
      assert v[i..][1..] == v[i + 1..];
      assert out + (Le(v[i], 8) + Nums(v[i + 1..])) == (out + Le(v[i], 8)) + Nums(v[i + 1..]);
      out := out + Le(v[i], 8);
    }
    assert v[|v|..] == [] && out + [] == out;
  }

  method PutRuns(had: Bytes, v: seq<Bytes>) returns (out: Bytes)
    ensures out == had + Runs(v)
  {
    out := had;
    for i := 0 to |v|
      invariant out + Runs(v[i..]) == had + Runs(v)
    {
      assert v[i..][1..] == v[i + 1..];
      assert out + (Run(v[i]) + Runs(v[i + 1..])) == (out + Run(v[i])) + Runs(v[i + 1..]);
      out := out + Le(|v[i]|, 4);
      out := out + v[i];
    }
    assert v[|v|..] == [] && out + [] == out;
  }

  method PutValues(had: Bytes, v: Values) returns (out: Bytes)
    ensures out == had + v.Text()
  {
    hide Le, Nums, Runs;
    out := had + [v.Tag()];
    out := out + Le(v.Len(), 4);
    match v
    case Ints(ints) => out := PutNums(out, ints);
    case Strs(strs) => out := PutRuns(out, strs);
    case Nulls(_) => assert out + [] == out;
  }

  method PutColumns(had: Bytes, cols: seq<Column>) returns (out: Bytes)
    ensures out == had + ColumnsText(cols)
  {
    hide Le, Values.Text;
    out := had;
    for i := 0 to |cols|
      invariant out + ColumnsText(cols[i..]) == had + ColumnsText(cols)
    {
      assert cols[i..][1..] == cols[i + 1..];
      assert out + (cols[i].Text() + ColumnsText(cols[i + 1..])) == (out + cols[i].Text()) + ColumnsText(cols[i + 1..]);
      ghost var before := out;
      out := out + Le(cols[i].col, 4);
      out := PutValues(out, cols[i].values);
      assert out == before + cols[i].Text();
    }
    assert cols[|cols|..] == [] && out + [] == out;
  }

  method PutList(had: Bytes, v: seq<nat>) returns (out: Bytes)
    ensures out == had + ListText(v)
  {
    hide Le, Nums;
    out := PutNums(had + Le(|v|, 4), v);
  }

  method PutPairs(had: Bytes, a: seq<nat>, b: seq<nat>) returns (out: Bytes)
    ensures out == had + PairsText(a, b)
  {
    hide Le, Nums;
    out := PutNums(had + Le(|a|, 4), a);
    out := PutNums(out, b);
  }

  method PutRelInsert(had: Bytes, r: Record) returns (out: Bytes)
    requires r.RelInsert?
    ensures out == had + r.Payload()
  {
    hide Le, PairsText, ColumnsText;
    out := PutPairs(had + Le(r.rel, 4), r.src, r.dst);
    out := PutColumns(out + Le(|r.cols|, 4), r.cols);
  }

  method PutUpdate(had: Bytes, r: Record) returns (out: Bytes)
    requires r.Update?
    ensures out == had + r.Payload()
  {
    hide Le, ListText, Values.Text;
    out := PutList(had + Le(r.table, 4) + Le(r.group, 8) + Le(r.col, 4), r.offsets);
    out := PutValues(out, r.values);
  }

  method PutRelUpdate(had: Bytes, r: Record) returns (out: Bytes)
    requires r.RelUpdate?
    ensures out == had + r.Payload()
  {
    hide Le, PairsText, Values.Text;
    out := PutPairs(had + Le(r.rel, 4) + Le(r.col, 4), r.src, r.dst);
    out := PutValues(out, r.values);
  }

  /** `encode_payload`. */
  method EncodePayload(had: Bytes, r: Record) returns (out: Bytes)
    ensures out == had + r.Payload()
  {
    hide Le, ListText, PairsText, ColumnsText, Values.Text;
    out := had;
    match r
    case NodeInsert(table, cols) =>
      out := PutColumns(out + Le(table, 4) + Le(|cols|, 4), cols);
    case RelInsert(_, _, _, _) =>
      out := PutRelInsert(out, r);
    case Update(_, _, _, _, _) =>
      out := PutUpdate(out, r);
    case Delete(table, ids) =>
      out := PutList(out + Le(table, 4), ids);
    case RelDelete(rel, src, dst) =>
      out := PutPairs(out + Le(rel, 4), src, dst);
    case RelUpdate(_, _, _, _, _) =>
      out := PutRelUpdate(out, r);
    case LabelUpdate(table, offsets, add, remove) =>
      out := PutList(out + Le(table, 4) + Le(add, 8) + Le(remove, 8), offsets);
    case DdlCatalog(delta) =>
      out := out + delta;
    case IngestRef(table, ptrs) =>
      out := PutList(out + Le(table, 4), ptrs);
    case _ =>
      assert out + [] == out;
  }

  // ---- reading ----

  /** Whether a read came to what the bytes mean, and left what follows. */
  ghost predicate Took<T>(meant: Option<Got<T>>, r: Option<T>, left: Bytes) {
    match meant
    case None => r == None
    case Some(got) => r == Some(got.value) && left == got.rest
  }

  class Reader {
    const buf: Bytes
    var pos: nat

    ghost predicate Valid()
      reads this
    { pos <= |buf| }

    ghost function Left(): Bytes
      reads this
      requires Valid()
    { buf[pos..] }

    constructor (buf: Bytes)
      ensures Valid() && Left() == buf
    {
      this.buf := buf;
      pos := 0;
    }

    method TakeBytes(len: nat) returns (r: Option<Bytes>)
      requires Valid()
      modifies this
      ensures Valid() && r.Some? == (len <= |old(Left())|)
      ensures r.Some? ==> r.value == old(Left())[..len] && Left() == old(Left())[len..]
    {
      if len > |buf| - pos { return None; }
      r := Some(buf[pos..pos + len]);
      pos := pos + len;
    }

    method TakeNum(w: nat) returns (r: Option<nat>)
      requires Valid()
      modifies this
      ensures Valid() && Took(ReadNum(old(Left()), w), r, Left())
    {
      var bytes := TakeBytes(w);
      if bytes == None { return None; }
      r := Some(FromLe(bytes.value));
    }

    method TakeRest() returns (r: Bytes)
      requires Valid()
      modifies this
      ensures Valid() && r == old(Left()) && Left() == []
    {
      r := buf[pos..];
      pos := |buf|;
    }

    method TakeNums(count: nat) returns (r: Option<seq<nat>>)
      requires Valid()
      modifies this
      ensures Valid() && Took(ReadNums(old(Left()), count), r, Left())
    {
      hide ReadNum;
      var v: seq<nat> := [];
      ghost var start := Left();
      AfterNone(ReadNums(start, count));
      for i := 0 to count
        invariant Valid()
        invariant ReadNums(start, count) == After(v, ReadNums(Left(), count - i))
      {
        ghost var here := Left();
        var n := TakeNum(8);
        if n == None { return None; }
        AfterMore(v, n.value, if count - i > 0 then ReadNums(Left(), count - i - 1) else None);
        v := v + [n.value];
      }
      assert v + [] == v;
      r := Some(v);
    }

    method TakeRun() returns (r: Option<Bytes>)
      requires Valid()
      modifies this
      ensures Valid() && Took(ReadRun(old(Left())), r, Left())
    {
      hide ReadNum;
      var len := TakeNum(4);
      if len == None { return None; }
      r := TakeBytes(len.value);
    }

    method TakeRuns(count: nat) returns (r: Option<seq<Bytes>>)
      requires Valid()
      modifies this
      ensures Valid() && Took(ReadRuns(old(Left()), count), r, Left())
    {
      hide ReadRun;
      var v: seq<Bytes> := [];
      ghost var start := Left();
      AfterNone(ReadRuns(start, count));
      for i := 0 to count
        invariant Valid()
        invariant ReadRuns(start, count) == After(v, ReadRuns(Left(), count - i))
      {
        var s := TakeRun();
        if s == None { return None; }
        AfterMore(v, s.value, if count - i > 0 then ReadRuns(Left(), count - i - 1) else None);
        v := v + [s.value];
      }
      assert v + [] == v;
      r := Some(v);
    }

    method TakeValues() returns (r: Option<Values>)
      requires Valid()
      modifies this
      ensures Valid() && Took(ReadValues(old(Left())), r, Left())
    {
      hide ReadNum, ReadNums, ReadRuns;
      var tag := TakeNum(1);
      if tag == None { return None; }
      var count := TakeNum(4);
      if count == None { return None; }
      match tag.value
      case 0 =>
        var v := TakeNums(count.value);
        if v == None { return None; }
        r := Some(Ints(v.value));
      case 1 =>
        var v := TakeRuns(count.value);
        if v == None { return None; }
        r := Some(Strs(v.value));
      case 2 => r := Some(Nulls(count.value));
      case _ => r := None;
    }

    method TakeColumns(count: nat, rows: Option<nat>) returns (r: Option<seq<Column>>)
      requires Valid()
      modifies this
      ensures Valid() && Took(ReadColumns(old(Left()), count, rows), r, Left())
    {
      hide ReadNum, ReadValues;
      var v: seq<Column> := [];
      ghost var start := Left();
      AfterNone(ReadColumns(start, count, rows));
      for i := 0 to count
        invariant Valid()
        invariant ReadColumns(start, count, rows) == After(v, ReadColumns(Left(), count - i, rows))
      {
        var col := TakeNum(4);
        if col == None { return None; }
        var values := TakeValues();
        if values == None { return None; }
        if rows.Some? && values.value.Len() != rows.value { return None; }
        var c := Column(col.value, values.value);
        AfterMore(v, c, if count - i > 0 then ReadColumns(Left(), count - i - 1, rows) else None);
        v := v + [c];
      }
      assert v + [] == v;
      r := Some(v);
    }
  }

  /** Items read before the others. */
  ghost function After<T>(v: seq<T>, r: Option<Got<seq<T>>>): Option<Got<seq<T>>> {
    match r
    case None => None
    case Some(got) => Some(Got(v + got.value, got.rest))
  }

  lemma AfterNone<T>(r: Option<Got<seq<T>>>)
    ensures After([], r) == r
  {
    if r.Some? { assert [] + r.value.value == r.value.value; }
  }

  lemma AfterMore<T>(v: seq<T>, x: T, r: Option<Got<seq<T>>>)
    ensures r.Some? ==> After(v, Some(Got([x] + r.value.value, r.value.rest))) == After(v + [x], r)
    ensures After(v + [x], None) == None
  {
    if r.Some? { assert v + ([x] + r.value.value) == (v + [x]) + r.value.value; }
  }

  // ---- records ----

  method TakeList(rd: Reader) returns (r: Option<seq<nat>>)
    requires rd.Valid()
    modifies rd
    ensures rd.Valid() && Took(ReadList(old(rd.Left())), r, rd.Left())
  {
    hide ReadNum, ReadNums;
    var count := rd.TakeNum(4);
    if count == None { return None; }
    r := rd.TakeNums(count.value);
  }

  method TakePairs(rd: Reader) returns (r: Option<(seq<nat>, seq<nat>)>)
    requires rd.Valid()
    modifies rd
    ensures rd.Valid() && Took(ReadPairs(old(rd.Left())), r, rd.Left())
  {
    hide ReadNum, ReadNums;
    var count := rd.TakeNum(4);
    if count == None { return None; }
    var a := rd.TakeNums(count.value);
    if a == None { return None; }
    var b := rd.TakeNums(count.value);
    if b == None { return None; }
    r := Some((a.value, b.value));
  }

  method TakeCols(rd: Reader, rows: Option<nat>) returns (r: Option<seq<Column>>)
    requires rd.Valid()
    modifies rd
    ensures rd.Valid() && Took(ReadCols(old(rd.Left()), rows), r, rd.Left())
  {
    hide ReadNum, ReadColumns;
    var count := rd.TakeNum(4);
    if count == None { return None; }
    r := rd.TakeColumns(count.value, rows);
  }

  method TakeNodeInsert(rd: Reader) returns (r: Option<Record>)
    requires rd.Valid()
    modifies rd
    ensures rd.Valid() && Took(ReadNodeInsert(old(rd.Left())), r, rd.Left())
  {
    hide ReadNum, ReadCols;
    var table := rd.TakeNum(4);
    if table == None { return None; }
    var cols := TakeCols(rd, None);
    if cols == None { return None; }
    r := Some(NodeInsert(table.value, cols.value));
  }

  method TakeRelInsert(rd: Reader) returns (r: Option<Record>)
    requires rd.Valid()
    modifies rd
    ensures rd.Valid() && Took(ReadRelInsert(old(rd.Left())), r, rd.Left())
  {
    hide ReadNum, ReadPairs, ReadCols;
    var rel := rd.TakeNum(4);
    if rel == None { return None; }
    var pairs := TakePairs(rd);
    if pairs == None { return None; }
    var cols := TakeCols(rd, Some(|pairs.value.0|));
    if cols == None { return None; }
    r := Some(RelInsert(rel.value, pairs.value.0, pairs.value.1, cols.value));
  }

  method TakeUpdate(rd: Reader) returns (r: Option<Record>)
    requires rd.Valid()
    modifies rd
    ensures rd.Valid() && Took(ReadUpdate(old(rd.Left())), r, rd.Left())
  {
    hide ReadNum, ReadList, ReadValues, Values.Len;
    var table := rd.TakeNum(4);
    if table == None { return None; }
    var group := rd.TakeNum(8);
    if group == None { return None; }
    var col := rd.TakeNum(4);
    if col == None { return None; }
    var offsets := TakeList(rd);
    if offsets == None { return None; }
    var values := rd.TakeValues();
    if values == None || values.value.Len() != |offsets.value| { return None; }
    r := Some(Update(table.value, group.value, col.value, offsets.value, values.value));
  }

  method TakeRelDelete(rd: Reader) returns (r: Option<Record>)
    requires rd.Valid()
    modifies rd
    ensures rd.Valid() && Took(ReadRelDelete(old(rd.Left())), r, rd.Left())
  {
    hide ReadNum, ReadPairs;
    var rel := rd.TakeNum(4);
    if rel == None { return None; }
    var pairs := TakePairs(rd);
    if pairs == None { return None; }
    r := Some(RelDelete(rel.value, pairs.value.0, pairs.value.1));
  }

  method TakeRelUpdate(rd: Reader) returns (r: Option<Record>)
    requires rd.Valid()
    modifies rd
    ensures rd.Valid() && Took(ReadRelUpdate(old(rd.Left())), r, rd.Left())
  {
    hide ReadNum, ReadPairs, ReadValues, Values.Len;
    var rel := rd.TakeNum(4);
    if rel == None { return None; }
    var col := rd.TakeNum(4);
    if col == None { return None; }
    var pairs := TakePairs(rd);
    if pairs == None { return None; }
    var values := rd.TakeValues();
    if values == None || values.value.Len() != |pairs.value.0| { return None; }
    r := Some(RelUpdate(rel.value, col.value, pairs.value.0, pairs.value.1, values.value));
  }

  /** The masks are compared before the offsets are read; either fault refuses the record. */
  method TakeLabelUpdate(rd: Reader) returns (r: Option<Record>)
    requires rd.Valid()
    modifies rd
    ensures rd.Valid() && Took(ReadLabelUpdate(old(rd.Left())), r, rd.Left())
  {
    hide ReadNum, ReadNums, Share;
    var table := rd.TakeNum(4);
    if table == None { return None; }
    var add := rd.TakeNum(8);
    if add == None { return None; }
    var remove := rd.TakeNum(8);
    if remove == None { return None; }
    var count := rd.TakeNum(4);
    if count == None || Share(add.value, remove.value) { return None; }
    var offsets := rd.TakeNums(count.value);
    if offsets == None { return None; }
    r := Some(LabelUpdate(table.value, offsets.value, add.value, remove.value));
  }

  method TakeTable(rd: Reader) returns (r: Option<(nat, seq<nat>)>)
    requires rd.Valid()
    modifies rd
    ensures rd.Valid() && Took(ReadTable(old(rd.Left())), r, rd.Left())
  {
    hide ReadNum, ReadList;
    var table := rd.TakeNum(4);
    if table == None { return None; }
    var list := TakeList(rd);
    if list == None { return None; }
    r := Some((table.value, list.value));
  }

  /** A record read off the front, refused when bytes follow it. */
  method Whole(kind: Byte, ghost s: Bytes, rd: Reader, front: Option<Record>) returns (r: Option<Record>)
    requires rd.Valid() && Took(ReadFront(kind, s), front, rd.Left())
    modifies rd
    ensures r == ReadRecord(kind, s)
  {
    hide ReadFront;
    if front == None { return None; }
    var rest := rd.TakeRest();
    r := if rest == [] then front else None;
  }

  /** `WalRecord::decode`. */
  method Decode(kind: Byte, rd: Reader) returns (r: Option<Record>)
    requires rd.Valid()
    modifies rd
    ensures r == ReadRecord(kind, old(rd.Left()))
  {
    hide ReadTable, ReadNodeInsert, ReadRelInsert, ReadUpdate, ReadRelDelete, ReadRelUpdate, ReadLabelUpdate;
    ghost var s := rd.Left();
    match kind {
      case 1 => r := Some(TxnBegin);
      case 2 => r := TakeNodeInsert(rd);
      case 3 => r := TakeRelInsert(rd);
      case 4 => r := TakeUpdate(rd);
      case 5 =>
        var t := TakeTable(rd);
        r := if t == None then None else Some(Delete(t.value.0, t.value.1));
      case 6 =>
        var delta := rd.TakeRest();
        r := Some(DdlCatalog(delta));
      case 7 => r := Some(TxnCommit);
      case 8 =>
        var t := TakeTable(rd);
        r := if t == None then None else Some(IngestRef(t.value.0, t.value.1));
      case 9 => r := Some(CheckpointNote);
      case 10 => r := TakeRelDelete(rd);
      case 11 => r := TakeRelUpdate(rd);
      case 12 => r := TakeLabelUpdate(rd);
      case _ => r := None;
    }
    assert Took(ReadFront(kind, s), r, rd.Left());
    r := Whole(kind, s, rd, r);
  }
}
