/**
  The log of crates/zu-zu1/src/wal.rs: frames staged in a buffer, written into room
  that was reserved and zeroed, cut back and replayed.
 */
module WalLog {
  import opened Common
  import opened WalRecord
  import opened WalCodec
  import opened WalFrames

  const SPILL := 262144
  const RESERVE_MIN := 65536
  const RESERVE_MAX := 1048576

  /** Bytes written over a file at an offset within it or at its end. */
  function Over(file: Bytes, at: nat, data: Bytes): Bytes
    requires at <= |file|
  { file[..at] + data + if at + |data| < |file| then file[at + |data|..] else [] }

  lemma OverTwice(file: Bytes, at: nat, a: Bytes, b: Bytes)
    requires at <= |file|
    ensures Over(Over(file, at, a), at + |a|, b) == Over(file, at, a + b)
  {
    var once := Over(file, at, a);
    assert once[..at + |a|] == file[..at] + a;
  }

  /** Zeros written further on from where zeros were written. */
  lemma OverMore(file: Bytes, from: nat, m: nat, n: nat)
    requires from <= |file|
    ensures from + m <= |Over(file, from, Zeros(m))|
    ensures Over(Over(file, from, Zeros(m)), from + m, Zeros(n)) == Over(file, from, Zeros(m + n))
  {
    OverTwice(file, from, Zeros(m), Zeros(n));
    ZerosJoin(m, n);
  }

  lemma ZerosJoin(m: nat, n: nat)
    ensures Zeros(m) + Zeros(n) == Zeros(m + n)
  {
  }

  /** `next_frame`: the frame at an offset, and the offset of the next. */
  method NextFrame(bytes: Bytes, at: nat, crc: Crc) returns (r: Option<(Bytes, nat)>)
    requires at <= |bytes|
    ensures match Next(bytes[at..], crc)
            case None => r == None
            case Some(got) => r == Some((got.value, at + PREFIX + |got.value|)) && at + PREFIX + |got.value| <= |bytes|
                              && bytes[at + PREFIX + |got.value|..] == got.rest
  {
    var rest := bytes[at..];
    if |rest| < PREFIX { return None; }
    var len := FromLe(rest[..4]);
    var stored := FromLe(rest[4..8]);
    assert rest[4..][..4] == rest[4..8] && rest[4..][4..] == rest[8..];
    if len < MIN_BODY || PREFIX + len > |rest| { return None; }
    var body := rest[PREFIX..PREFIX + len];
    assert rest[8..][..len] == body && rest[8..][len..] == bytes[at + PREFIX + len..];
    if crc(body) != stored { return None; }
    r := Some((body, at + PREFIX + len));
  }

  /** Where the intact frames of a file end. */
  method ScanEnd(bytes: Bytes, crc: Crc) returns (end: nat)
    ensures end == |Log(Bodies(bytes, crc), crc)| && end <= |bytes| && bytes[end..] == Tail(bytes, crc)
  {
    hide Next, Log;
    end := 0;
    assert bytes[0..] == bytes;
    while true
      invariant end <= |bytes| && Tail(bytes[end..], crc) == Tail(bytes, crc)
      decreases |bytes| - end
    {
      var r := NextFrame(bytes, end, crc);
      if r == None { break; }
      NextExact(bytes[end..], crc);
      end := r.value.1;
    }
    ScanIsLog(bytes, crc);
    assert Tail(bytes[end..], crc) == bytes[end..];
    assert |bytes[end..]| == |bytes| - |Log(Bodies(bytes, crc), crc)|;
  }

  // ---- room ----

  /** Room for `need` bytes, from `to` on, in steps that double up to the largest. */
  function Grown(to: nat, step: nat, need: nat): (r: nat)
    requires step > 0
    ensures to <= r && need <= r
    decreases need - to
  {
    if to >= need then to
    else Grown(to + step, if step * 2 < RESERVE_MAX then step * 2 else RESERVE_MAX, need)
  }

  /** What there is, between the least step and the largest. */
  function FirstStep(reserved: nat): (step: nat)
    ensures RESERVE_MIN <= step <= RESERVE_MAX
  { Max(RESERVE_MIN, Min(reserved, RESERVE_MAX)) }

  function RoomFor(reserved: nat, need: nat): (r: nat)
    ensures reserved <= r && need <= r
  {
    Grown(reserved, FirstStep(reserved), need)
  }

  lemma {:induction false} GrownBound(to: nat, step: nat, need: nat)
    requires 0 < step <= 0x10_0000
    ensures to < need ==> Grown(to, step, need) < need + 0x10_0000 && Grown(to, step, need) >= to + step
    decreases need - to
  {
    if to < need { GrownBound(to + step, if step * 2 < RESERVE_MAX then step * 2 else RESERVE_MAX, need); }
  }

  /** Room is kept while it is enough; more of it is 64 KiB at least, and less than a MiB past what is needed. */
  lemma RoomIsEnoughAndNoMore(reserved: nat, need: nat)
    ensures need <= reserved ==> RoomFor(reserved, need) == reserved
    ensures need > reserved ==>
      need <= RoomFor(reserved, need) < need + 0x10_0000 && RoomFor(reserved, need) >= reserved + 0x1_0000
  {
    GrownBound(reserved, FirstStep(reserved), need);
  }

  /** A log that grows a little at a time doubles its room from 64 KiB to a MiB, and then takes a MiB at a time. */
  lemma RoomDoubles(reserved: nat)
    ensures reserved == 0 ==> RoomFor(reserved, reserved + 1) == 0x1_0000
    ensures 0x1_0000 <= reserved <= 0x10_0000 ==> RoomFor(reserved, reserved + 1) == 2 * reserved
    ensures reserved >= 0x10_0000 ==> RoomFor(reserved, reserved + 1) == reserved + 0x10_0000
  {
    var step := if reserved < 0x1_0000 then 0x1_0000 else if reserved > 0x10_0000 then 0x10_0000 else reserved;
    OneStep(reserved, step, reserved + 1);
  }

  lemma OneStep(to: nat, step: nat, need: nat)
    requires to < need <= to + step
    ensures Grown(to, step, need) == to + step
  {
    var next := if step * 2 < RESERVE_MAX then step * 2 else RESERVE_MAX;
    assert Grown(to + step, next, need) == to + step;
  }

  class Wal {
    const crc: Crc
    var file: Bytes
    var len: nat
    var reserved: nat
    var buf: Bytes
    /** The bodies of the frames in the file, and of those in the buffer. */
    ghost var bodies: seq<Bytes>
    ghost var staged: seq<Bytes>

    /** The file is the frames and zeros behind them; the buffer is the frames that wait. */
    ghost predicate Valid()
      reads this
    {
      len == |Log(bodies, crc)| <= reserved &&
      file == Log(bodies, crc) + Zeros(reserved - len) && buf == Log(staged, crc)
    }

    /** The frames a scan finds: all of them, where each fits a frame. */
    ghost function Found(): (r: seq<Bytes>)
      reads this
      ensures AllFit(r)
      ensures AllFit(bodies) ==> r == bodies
    {
      FoundIsAll(bodies, crc);
      Bodies(Log(bodies, crc), crc)
    }

    /** `erase`: zeros from one offset to another, a chunk at a time. */
    method Erase(from: nat, to: nat)
      requires from <= to && from <= |file|
      modifies this`file
      ensures file == Over(old(file), from, Zeros(to - from))
    {
      hide Over, Zeros;
      var at := from;
      OverNothing(file, from);
      while at < to
        invariant from <= at <= to
        invariant file == Over(old(file), from, Zeros(at - from))
      {
        var span := if to - at < RESERVE_MAX then to - at else RESERVE_MAX;
        OverMore(old(file), from, at - from, span);
        file := Over(file, at, Zeros(span));
        at := at + span;
      }
    }

    /** `open_on`: the frames that are intact, with zeros in place of whatever is behind them. */
    constructor Open(bytes: Bytes, crc: Crc)
      ensures Valid() && this.crc == crc && bodies == Bodies(bytes, crc) && staged == []
      ensures |file| == |bytes| == reserved && fresh(this)
    {
      var end := ScanEnd(bytes, crc);
      this.crc := crc;
      file, reserved, len, buf := bytes, |bytes|, end, [];
      bodies, staged := Bodies(bytes, crc), [];
      new;
      hide Log, Bodies, Over, Tail;
      NoneLogged(crc);
      Cleaned(bytes, crc);
      EraseTail(end);
    }

    /** Zeros from an offset on, written unless they are there. */
    method EraseTail(end: nat)
      requires end <= |file| == reserved
      modifies this`file
      ensures file == Over(old(file), end, Zeros(|old(file)| - end))
    {
      var clean := AllZero(file[end..]);
      if clean {
        assert file == file[..end] + file[end..];
      } else {
        Erase(end, reserved);
      }
    }

    /** `reserve`: zeroed room for `need` bytes past the end. */
    method Reserve(need: nat)
      requires Valid()
      modifies this`file, this`reserved
      ensures Valid() && len + need <= reserved && reserved == RoomFor(old(reserved), len + need)
    {
      if len + need <= reserved { return; }
      var to := reserved;
      var step := if reserved < RESERVE_MIN then RESERVE_MIN
                  else if reserved > RESERVE_MAX then RESERVE_MAX else reserved;
      while to < len + need
        invariant reserved <= to && step > 0
        invariant Grown(to, step, len + need) == RoomFor(reserved, len + need)
        decreases len + need - to
      {
        to := to + step;
        step := if step * 2 < RESERVE_MAX then step * 2 else RESERVE_MAX;
      }
      ghost var before := file;
      Erase(reserved, to);
      ZerosJoin(reserved - len, to - reserved);
      assert before[..reserved] == before;
      reserved := to;
    }

    /** `flush`: the staged frames written behind the others. */
    method Flush()
      requires Valid()
      modifies this
      ensures Valid() && bodies == old(bodies + staged) && staged == []
    {
      hide Log, Over;
      LogConcat(bodies, staged, crc);
      NoneLogged(crc);
      assert bodies + [] == bodies;
      if |buf| == 0 {
        NoFrames(staged, crc);
        assert staged == [];
        return;
      }
      Reserve(|buf|);
      ghost var before := file;
      WriteBehind(Log(bodies, crc), reserved - len, buf);
      file := Over(file, len, buf);
      len := len + |buf|;
      buf := [];
      bodies, staged := bodies + staged, [];
    }

    /** `append`: one frame staged, and the buffer written out once it is large. */
    method Append(epoch: nat, rec: Record)
      requires Valid()
      modifies this
      ensures Valid() && bodies + staged == old(bodies + staged) + [BodyOf(Entry(epoch, rec))]
      ensures var size := old(|buf|) + PREFIX + MIN_BODY + |rec.Payload()|;
              (size < SPILL ==> bodies == old(bodies)) && (size >= SPILL ==> staged == [])
    {
      hide Log, BodyOf, Le, FromLe, Record.Payload;
      ghost var body := BodyOf(Entry(epoch, rec));
      ghost var had := buf;
      var at := |buf|;
      buf := buf + Zeros(PREFIX) + Le(epoch, 8) + [rec.Kind()];
      buf := EncodePayload(buf, rec);
      BodyIs(epoch, rec);
      assert buf[at + PREFIX..] == body;
      var out := buf[at + PREFIX..];
      buf := buf[..at] + (Le(|out|, 4) + Le(crc(out), 4)) + out;
      assert buf == had + Frame(body, crc);
      hide Frame;
      LogConcat(staged, [body], crc);
      LogOne(body, crc);
      ghost var all := bodies + staged + [body];
      staged := staged + [body];
      assert bodies + staged == all;
      if |buf| >= SPILL {
        Flush();
        assert bodies + staged == bodies;
      }
    }

    /** `stage_commit`: the commit frame last, and everything written out. */
    method StageCommit(epoch: nat) returns (need: nat)
      requires Valid()
      modifies this
      ensures Valid() && staged == [] && need == len
      ensures bodies == old(bodies + staged) + [BodyOf(Entry(epoch, TxnCommit))]
    {
      Append(epoch, TxnCommit);
      Flush();
      need := len;
    }

    /** `rollback_above`: what is staged goes, and so does the file from the first frame above the floor on. */
    method RollbackAbove(floor: nat)
      requires Valid()
      modifies this
      ensures Valid() && staged == [] && bodies == Kept(old(Found()), floor)
    {
      hide Log, Bodies, Kept, Over;
      buf := [];
      NoneLogged(crc);
      assert file[..len] == Log(bodies, crc);
      var end := KeptEnd(file[..len], floor, crc);
      ghost var kept := Kept(Found(), floor);
      if end != len {
        CutBack(file, end, len, crc);
        Erase(end, len);
        len := end;
      }
      bodies, staged := kept, [];
    }

    /** `replay`, to a sink that may refuse what it is given. */
    method Replay(floor: nat, takes: seq<Entry> -> bool) returns (r: Outcome)
      requires Valid()
      ensures r == Sunk(Replayed(Found(), NoteFloor(Found(), floor), []), takes)
    {
      hide Log, Bodies, Replayed, NoteFloor, Sunk;
      assert file[..len] == Log(bodies, crc);
      r := ReplayBytes(file[..len], floor, takes, crc);
    }

    /** `truncate`: every frame gone and the room kept. */
    method Truncate()
      requires Valid()
      modifies this
      ensures Valid() && bodies == [] && staged == [] && reserved == old(reserved)
    {
      buf := [];
      ghost var room := reserved - len;
      ZerosJoin(len, room);
      Erase(0, len);
      assert file == Zeros(reserved);
      len := 0;
      bodies, staged := [], [];
    }
  }

  lemma FoundIsAll(bodies: seq<Bytes>, crc: Crc)
    ensures AllFit(bodies) ==> Bodies(Log(bodies, crc), crc) == bodies
  {
    hide Log, Bodies, Fits;
    if AllFit(bodies) {
      ShortIsNone([], crc);
      LogScans(bodies, [], crc);
      assert Log(bodies, crc) + [] == Log(bodies, crc);
    }
  }

  /** A file with zeros written behind its intact frames. */
  lemma Cleaned(bytes: Bytes, crc: Crc)
    ensures var front := Log(Bodies(bytes, crc), crc);
            var end := |front|;
            end <= |bytes| && bytes[..end] == front &&
            Over(bytes, end, Zeros(|bytes| - end)) == front + Zeros(|bytes| - end)
  {
    hide Log, Bodies;
    ScanIsLog(bytes, crc);
    assert bytes == bytes[..|Log(Bodies(bytes, crc), crc)|] + bytes[|Log(Bodies(bytes, crc), crc)|..];
  }

  /** A file cut back: zeros from an offset to where its frames ended. */
  lemma CutBack(file: Bytes, end: nat, len: nat, crc: Crc)
    requires end <= len <= |file| && file[len..] == Zeros(|file| - len)
    ensures Over(file, end, Zeros(len - end)) == file[..end] + Zeros(|file| - end)
  {
    ZerosJoin(len - end, |file| - len);
    var front, cut, behind := file[..end], Zeros(len - end), Zeros(|file| - len);
    assert front + cut + behind == front + (cut + behind);
  }

  // ---- reading the frames ----

  lemma BodiesStep(s: Bytes, crc: Crc)
    ensures match Next(s, crc)
            case None => Bodies(s, crc) == []
            case Some(got) => Bodies(s, crc) == [got.value] + Bodies(got.rest, crc) && Fits(got.value) &&
                              s == Frame(got.value, crc) + got.rest
  {
    hide Next;
    NextExact(s, crc);
  }

  /** Where the first frame above a floor starts. */
  method KeptEnd(bytes: Bytes, floor: nat, crc: Crc) returns (end: nat)
    ensures end == |Log(Kept(Bodies(bytes, crc), floor), crc)| <= |bytes|
    ensures bytes[..end] == Log(Kept(Bodies(bytes, crc), floor), crc)
  {
    hide Next, Frame, EpochOf, Le, FromLe, Kept, Log, Bodies;
    end := 0;
    ghost var found: seq<Bytes> := [];
    ghost var all := Kept(Bodies(bytes, crc), floor);
    NoneLogged(crc);
    assert bytes[0..] == bytes && [] + all == all;
    while true
      invariant end <= |bytes| && bytes[..end] == Log(found, crc)
      invariant all == found + Kept(Bodies(bytes[end..], crc), floor)
      decreases |bytes| - end
    {
      BodiesStep(bytes[end..], crc);
      var r := NextFrame(bytes, end, crc);
      if r == None || EpochOf(r.value.0) > floor {
        KeptStops(Bodies(bytes[end..], crc), floor);
        assert found + [] == found;
        break;
      }
      var body := r.value.0;
      KeptFirst(body, Bodies(bytes[r.value.1..], crc), floor);
      LogGrows(bytes, end, found, body, crc);
      assert found + ([body] + Kept(Bodies(bytes[r.value.1..], crc), floor))
          == found + [body] + Kept(Bodies(bytes[r.value.1..], crc), floor);
      found := found + [body];
      end := r.value.1;
    }
  }

  lemma LogGrows(bytes: Bytes, end: nat, found: seq<Bytes>, body: Bytes, crc: Crc)
    requires end + PREFIX + |body| <= |bytes| && bytes[..end] == Log(found, crc)
    requires bytes[end..] == Frame(body, crc) + bytes[end + PREFIX + |body|..]
    ensures bytes[..end + PREFIX + |body|] == Log(found + [body], crc)
  {
    hide Log, Frame;
    LogConcat(found, [body], crc);
    LogOne(body, crc);
    assert bytes[..end + PREFIX + |body|] == bytes[..end] + bytes[end..][..PREFIX + |body|];
  }

  /** The first pass of `replay`: the highest epoch a note folds. */
  method FindFloor(bytes: Bytes, floor: nat, crc: Crc) returns (r: nat)
    ensures r == NoteFloor(Bodies(bytes, crc), floor)
  {
    hide Next, Frame, EpochOf, KindOf, Le, FromLe, Bodies, NoteFloor;
    r := floor;
    FloorNone(floor);
    var at := 0;
    ghost var found: seq<Bytes> := [];
    assert bytes[0..] == bytes && [] + Bodies(bytes, crc) == Bodies(bytes, crc);
    while true
      invariant at <= |bytes| && AllFit(found)
      invariant Bodies(bytes, crc) == found + Bodies(bytes[at..], crc)
      invariant r == NoteFloor(found, floor)
      decreases |bytes| - at
    {
      BodiesStep(bytes[at..], crc);
      var next := NextFrame(bytes, at, crc);
      if next == None { break; }
      var body := next.value.0;
      FloorMore(found, body, floor);
      if KindOf(body) == KIND_CHECKPOINT_NOTE && EpochOf(body) > r { r := EpochOf(body); }
      ghost var more := Bodies(bytes[next.value.1..], crc);
      assert found + ([body] + more) == found + [body] + more;
      found := found + [body];
      at := next.value.1;
    }
    assert found + [] == found;
  }

  lemma FloorNone(floor: nat)
    ensures NoteFloor([], floor) == floor
  {
  }

  lemma FloorMore(found: seq<Bytes>, body: Bytes, floor: nat)
    requires AllFit(found) && Fits(body)
    ensures AllFit(found + [body])
    ensures var below := NoteFloor(found, floor);
            NoteFloor(found + [body], floor) ==
              if KindOf(body) == KIND_CHECKPOINT_NOTE && EpochOf(body) > below then EpochOf(body) else below
  {
    hide EpochOf, KindOf;
    assert (found + [body])[..|found|] == found;
  }

  /** `replay`: what the sink is given, and whether all went well. */
  method ReplayBytes(bytes: Bytes, floor: nat, takes: seq<Entry> -> bool, crc: Crc) returns (r: Outcome)
    ensures r == Sunk(Replayed(Bodies(bytes, crc), NoteFloor(Bodies(bytes, crc), floor), []), takes)
  {
    hide Next, Frame, EpochOf, KindOf, Le, FromLe, ReadEntry, Replayed, NoteFloor, Bodies, Fed;
    var low := FindFloor(bytes, floor, crc);
    var out, txn: seq<Entry>, at := [], [], 0;
    ghost var full := Replayed(Bodies(bytes, crc), low, []);
    assert bytes[0..] == bytes && full.After([]) == full;
    FedNone(takes);
    while true
      invariant at <= |bytes| && Fed([], out, takes) == Outcome(out, true)
      invariant Replayed(Bodies(bytes[at..], crc), low, txn).After(out) == full
      decreases |bytes| - at
    {
      BodiesStep(bytes[at..], crc);
      ghost var here := Bodies(bytes[at..], crc);
      var next := NextFrame(bytes, at, crc);
      if next == None {
        ReplayedEnds(here, low, txn, out);
        break;
      }
      assert here[1..] == Bodies(bytes[next.value.1..], crc);
      var e := DecodeEntry(next.value.0);
      if e == None {
        ReplayedFails(here, low, txn, out);
        return Outcome(out, false);
      }
      ReplayedStep(here, e.value, low, txn, out);
      ghost var had := out;
      var ok;
      out, txn, ok := Take(e.value, low, out, txn, takes);
      if !ok {
        ghost var more := txn + [e.value];
        ghost var rest := Replayed(here[1..], low, []);
        Refused(had, more, rest, full, takes);
        return Outcome(out, false);
      }
      at := next.value.1;
    }
    r := Outcome(out, true);
  }

  lemma FedNone(takes: seq<Entry> -> bool)
    ensures Fed([], [], takes) == Outcome([], true)
  {
  }

  /** A sink that refuses within a transaction refuses there of all that would have been delivered. */
  lemma Refused(had: seq<Entry>, more: seq<Entry>, rest: Outcome, full: Outcome, takes: seq<Entry> -> bool)
    requires full == rest.After(had + more) && Fed([], had, takes) == Outcome(had, true)
    requires !Fed(had, more, takes).ok
    ensures Sunk(full, takes) == Outcome(Fed(had, more, takes).out, false)
  {
    hide Fed;
    RefusedFed(had, more, rest.out, takes);
    assert full.out == had + more + rest.out;
  }

  lemma RefusedFed(had: seq<Entry>, more: seq<Entry>, rest: seq<Entry>, takes: seq<Entry> -> bool)
    requires Fed([], had, takes) == Outcome(had, true) && !Fed(had, more, takes).ok
    ensures Fed([], had + more + rest, takes) == Fed(had, more, takes)
  {
    hide Fed;
    FedMore([], had, more + rest, takes);
    FedMore(had, more, rest, takes);
    assert had + (more + rest) == had + more + rest;
  }

  /**
    One record taken: buffered, handed to the sink with its transaction, or dropped.
    A transaction that the sink did not take whole stays in `txn` without its commit.
   */
  method Take(e: Entry, low: nat, had: seq<Entry>, buffered: seq<Entry>, takes: seq<Entry> -> bool)
    returns (out: seq<Entry>, txn: seq<Entry>, ok: bool)
    requires Fed([], had, takes) == Outcome(had, true)
    ensures var more := if e.rec.TxnCommit? && e.epoch > low then buffered + [e] else [];
            Fed(had, more, takes) == Outcome(out, ok) &&
            (ok ==> out == had + more && Fed([], out, takes) == Outcome(out, true)) &&
            (!ok ==> more == buffered + [e] && txn == buffered)
    ensures ok ==> txn == if e.rec.CheckpointNote? then buffered
                          else if e.rec.TxnBegin? then [e]
                          else if e.rec.TxnCommit? then []
                          else buffered + [e]
  {
    out, txn, ok := had, buffered, true;
    match e.rec {
      case CheckpointNote =>
      case TxnBegin => txn := [e];
      case TxnCommit =>
        if e.epoch > low {
          out, ok := Feed(had, buffered + [e], takes);
          if !ok { return; }
          FedMore([], had, buffered + [e], takes);
        }
        txn := [];
      case _ => txn := txn + [e];
    }
    assert had + [] == had;
  }

  /** Entries handed over one at a time. */
  method Feed(had: seq<Entry>, more: seq<Entry>, takes: seq<Entry> -> bool) returns (out: seq<Entry>, ok: bool)
    ensures Fed(had, more, takes) == Outcome(out, ok)
    ensures ok ==> out == had + more
  {
    out := had;
    assert more[0..] == more && had + more[..0] == had;
    for i := 0 to |more|
      invariant out == had + more[..i] && Fed(had, more, takes) == Fed(out, more[i..], takes)
    {
      assert more[i..][1..] == more[i + 1..] && more[..i + 1] == more[..i] + [more[i]];
      out := out + [more[i]];
      if !takes(out) { return out, false; }
    }
    assert more[|more|..] == [] && more[..|more|] == more;
    ok := true;
  }

  lemma ReplayedFails(bodies: seq<Bytes>, floor: nat, txn: seq<Entry>, done: seq<Entry>)
    requires AllFit(bodies) && bodies != [] && ReadEntry(bodies[0]) == None
    ensures Replayed(bodies, floor, txn).After(done) == Outcome(done, false)
  {
    assert done + [] == done;
  }

  lemma ReplayedEnds(bodies: seq<Bytes>, floor: nat, txn: seq<Entry>, done: seq<Entry>)
    requires bodies == []
    ensures Replayed(bodies, floor, txn).After(done) == Outcome(done, true)
  {
    assert done + [] == done;
  }

  lemma NoneLogged(crc: Crc)
    ensures Log([], crc) == []
  {
  }

  lemma KeptStops(bodies: seq<Bytes>, floor: nat)
    requires AllFit(bodies) && (bodies == [] || EpochOf(bodies[0]) > floor)
    ensures Kept(bodies, floor) == []
  {
    hide EpochOf;
  }

  lemma KeptFirst(body: Bytes, more: seq<Bytes>, floor: nat)
    requires Fits(body) && AllFit(more) && EpochOf(body) <= floor
    ensures AllFit([body] + more) && Kept([body] + more, floor) == [body] + Kept(more, floor)
  {
    hide EpochOf;
    assert ([body] + more)[1..] == more;
  }

  /** A body decoded. */
  method DecodeEntry(body: Bytes) returns (e: Option<Entry>)
    requires |body| >= MIN_BODY
    ensures e == ReadEntry(body)
  {
    hide ReadRecord;
    var rd := new Reader(body[9..]);
    var rec := Decode(KindOf(body), rd);
    if rec == None { return None; }
    e := Some(Entry(EpochOf(body), rec.value));
  }

  method AllZero(s: Bytes) returns (r: bool)
    ensures r == (s == Zeros(|s|))
  {
    for i := 0 to |s|
      invariant forall k :: 0 <= k < i ==> s[k] == 0
    {
      if s[i] != 0 { return false; }
    }
    r := true;
  }

  lemma OverNothing(file: Bytes, at: nat)
    requires at <= |file|
    ensures Over(file, at, Zeros(0)) == file
  {
  }

  lemma BodyIs(epoch: nat, rec: Record)
    ensures BodyOf(Entry(epoch, rec)) == Le(epoch, 8) + [rec.Kind()] + rec.Payload()
  {
  }

  lemma NoFrames(bodies: seq<Bytes>, crc: Crc)
    requires Log(bodies, crc) == []
    ensures bodies == []
  {
  }

  lemma WriteBehind(front: Bytes, room: nat, data: Bytes)
    requires |data| <= room
    ensures Over(front + Zeros(room), |front|, data) == front + data + Zeros(room - |data|)
  {
    var file := front + Zeros(room);
    assert file[..|front|] == front;
    assert file[|front| + |data|..] == Zeros(room - |data|);
  }
}
