/**
  The frames of crates/zu-zu1/src/wal.rs as bytes: where a log that was torn, cut or
  never finished is found to end, and what a replay delivers of it.
 */
module WalFrames {
  import opened Common
  import opened WalRecord

  const PREFIX := 8
  const MIN_BODY := 9
  const KIND_CHECKPOINT_NOTE := 9

  type Checksum = n: nat | n < 0x1_0000_0000

  /** The checksum of a body. */
  type Crc = Bytes -> Checksum

  /** `len: u32 | crc: u32 | body`, the length being that of the body in 32 bits. */
  function Frame(body: Bytes, crc: Crc): (r: Bytes)
    ensures |r| == PREFIX + |body|
  { Le(|body|, 4) + (Le(crc(body), 4) + body) }

  function Log(bodies: seq<Bytes>, crc: Crc): Bytes {
    if bodies == [] then [] else Frame(bodies[0], crc) + Log(bodies[1..], crc)
  }

  /** The first frame of some bytes and what follows it, or nothing at a torn tail. */
  function Next(s: Bytes, crc: Crc): Option<Got<Bytes>> {
    var len :- ReadNum(s, 4);
    var stored :- ReadNum(len.rest, 4);
    if len.value < MIN_BODY || len.value > |stored.rest| then None
    else
      var body := stored.rest[..len.value];
      if crc(body) != stored.value then None else Some(Got(body, stored.rest[len.value..]))
  }

  predicate Fits(body: Bytes) { MIN_BODY <= |body| < U32 }

  predicate AllFit(bodies: seq<Bytes>) { forall i :: 0 <= i < |bodies| ==> Fits(bodies[i]) }

  lemma NextExact(s: Bytes, crc: Crc)
    ensures var r := Next(s, crc); r.Some? ==> Fits(r.value.value) && s == Frame(r.value.value, crc) + r.value.rest
  {
    hide Le, ReadNum;
    Widths();
    NumExact(s, 4);
    var r := Next(s, crc);
    if r.Some? {
      var len := ReadNum(s, 4).value;
      NumExact(len.rest, 4);
      var stored := ReadNum(len.rest, 4).value;
      var body, rest := r.value.value, r.value.rest;
      assert stored.rest == body + rest;
      assert s == Le(|body|, 4) + (Le(crc(body), 4) + (body + rest));
      assert Frame(body, crc) + rest == Le(|body|, 4) + (Le(crc(body), 4) + (body + rest));
    }
  }

  lemma NextReads(body: Bytes, rest: Bytes, crc: Crc)
    requires Fits(body)
    ensures Next(Frame(body, crc) + rest, crc) == Some(Got(body, rest))
  {
    hide Le, ReadNum;
    Widths();
    NumReads(|body|, 4, Le(crc(body), 4) + (body + rest));
    NumReads(crc(body), 4, body + rest);
    assert Frame(body, crc) + rest == Le(|body|, 4) + (Le(crc(body), 4) + (body + rest));
    assert (body + rest)[..|body|] == body && (body + rest)[|body|..] == rest;
  }

  /** A frame is found again exactly when its body has a header and a length that 32 bits hold. */
  lemma FrameReadsIff(body: Bytes, rest: Bytes, crc: Crc)
    ensures Next(Frame(body, crc) + rest, crc) == Some(Got(body, rest)) <==> Fits(body)
  {
    hide Next, Frame;
    NextExact(Frame(body, crc) + rest, crc);
    if Fits(body) { NextReads(body, rest, crc); }
  }

  // ---- scanning ----

  /** The bodies of the intact frames from the front on. */
  function Bodies(s: Bytes, crc: Crc): (r: seq<Bytes>)
    ensures AllFit(r)
    decreases |s|
  {
    match Next(s, crc)
    case None => []
    case Some(got) => NextExact(s, crc); [got.value] + Bodies(got.rest, crc)
  }

  /** What is behind them. */
  function Tail(s: Bytes, crc: Crc): (t: Bytes)
    ensures Next(t, crc) == None
    decreases |s|
  {
    match Next(s, crc)
    case None => s
    case Some(got) => NextExact(s, crc); Tail(got.rest, crc)
  }

  /** Whatever the bytes, they are the log of what is found in them and a tail that opens with no frame. */
  lemma {:induction false} ScanIsLog(s: Bytes, crc: Crc)
    ensures AllFit(Bodies(s, crc)) && s == Log(Bodies(s, crc), crc) + Tail(s, crc)
    decreases |s|
  {
    hide Next, Frame, Fits;
    match Next(s, crc)
    case None => assert [] + s == s;
    case Some(got) =>
      NextExact(s, crc);
      ScanIsLog(got.rest, crc);
      var more := Bodies(got.rest, crc);
      assert ([got.value] + more)[1..] == more;
      assert Frame(got.value, crc) + (Log(more, crc) + Tail(got.rest, crc))
          == (Frame(got.value, crc) + Log(more, crc)) + Tail(got.rest, crc);
  }

  /** A log is scanned to its end, whatever opens with no frame behind it. */
  lemma {:induction false} LogScans(bodies: seq<Bytes>, tail: Bytes, crc: Crc)
    requires AllFit(bodies) && Next(tail, crc) == None
    ensures Bodies(Log(bodies, crc) + tail, crc) == bodies && Tail(Log(bodies, crc) + tail, crc) == tail
    decreases |bodies|
  {
    hide Next, Frame, Fits;
    if bodies == [] {
      assert [] + tail == tail;
    } else {
      var more := Log(bodies[1..], crc) + tail;
      assert Log(bodies, crc) + tail == Frame(bodies[0], crc) + more;
      NextReads(bodies[0], more, crc);
      LogScans(bodies[1..], tail, crc);
      assert bodies == [bodies[0]] + bodies[1..];
    }
  }

  lemma {:induction false} LogConcat(a: seq<Bytes>, b: seq<Bytes>, crc: Crc)
    ensures Log(a + b, crc) == Log(a, crc) + Log(b, crc)
  {
    hide Frame;
    if a == [] {
      assert a + b == b;
    } else {
      LogConcat(a[1..], b, crc);
      assert (a + b)[1..] == a[1..] + b;
    }
  }

  lemma LogOne(body: Bytes, crc: Crc)
    ensures Log([body], crc) == Frame(body, crc)
  {
    assert Log([body][1..], crc) == [];
  }

  // ---- a log cut short ----

  /** The frames that end within the first `c` bytes. */
  function Whole(bodies: seq<Bytes>, c: nat): (k: nat)
    ensures k <= |bodies|
  {
    if bodies == [] || PREFIX + |bodies[0]| > c then 0
    else 1 + Whole(bodies[1..], c - PREFIX - |bodies[0]|)
  }

  /** A frame cut short is no frame: its length is past the end. */
  lemma TornIsNone(body: Bytes, c: nat, crc: Crc)
    requires Fits(body) && c < PREFIX + |body|
    ensures Next(Frame(body, crc)[..c], crc) == None
  {
    hide Le, ReadNum;
    Widths();
    var torn := Frame(body, crc)[..c];
    if c < PREFIX {
      ShortIsNone(torn, crc);
    } else {
      var rest := body[..c - PREFIX];
      assert torn == Le(|body|, 4) + (Le(crc(body), 4) + rest);
      NumReads(|body|, 4, Le(crc(body), 4) + rest);
      NumReads(crc(body), 4, rest);
    }
  }

  lemma ShortIsNone(s: Bytes, crc: Crc)
    requires |s| < PREFIX
    ensures Next(s, crc) == None
  {
  }

  lemma Unreserved(n: nat, crc: Crc)
    ensures Next(Zeros(n), crc) == None
  {
    if n >= PREFIX {
      var z := Zeros(n);
      ZeroNum(z[..4]);
      assert ReadNum(z, 4) == Some(Got(0, z[4..]));
    } else {
      ShortIsNone(Zeros(n), crc);
    }
  }

  lemma {:induction false} ZeroNum(s: Bytes)
    requires forall i :: 0 <= i < |s| ==> s[i] == 0
    ensures FromLe(s) == 0
  {
    if s != [] { ZeroNum(s[1..]); }
  }

  /** Cut at any byte, a log is scanned to the frames that are whole, and no further. */
  lemma {:induction false} CutScans(bodies: seq<Bytes>, c: nat, crc: Crc)
    requires AllFit(bodies) && c <= |Log(bodies, crc)|
    ensures Bodies(Log(bodies, crc)[..c], crc) == bodies[..Whole(bodies, c)]
    decreases |bodies|
  {
    hide Next, Frame, Fits;
    if bodies == [] {
      assert Log(bodies, crc)[..c] == [];
      ShortIsNone([], crc);
    } else {
      var first, more := Frame(bodies[0], crc), Log(bodies[1..], crc);
      if c < |first| {
        assert (first + more)[..c] == first[..c];
        TornIsNone(bodies[0], c, crc);
      } else {
        var cut := more[..c - |first|];
        assert (first + more)[..c] == first + cut;
        NextReads(bodies[0], cut, crc);
        CutScans(bodies[1..], c - |first|, crc);
        assert bodies[..Whole(bodies, c)] == [bodies[0]] + bodies[1..][..Whole(bodies[1..], c - |first|)];
      }
    }
  }

  lemma {:induction false} WholeEnds(bodies: seq<Bytes>, c: nat, crc: Crc)
    requires c <= |Log(bodies, crc)|
    ensures |Log(bodies[..Whole(bodies, c)], crc)| <= c
    decreases |bodies|
  {
    hide Frame;
    var k := Whole(bodies, c);
    if k > 0 {
      var used := PREFIX + |bodies[0]|;
      WholeEnds(bodies[1..], c - used, crc);
      assert bodies[..k][0] == bodies[0] && bodies[..k][1..] == bodies[1..][..k - 1];
    }
  }

  /** What a cut leaves of the frame it goes through. */
  function TornPart(bodies: seq<Bytes>, c: nat, crc: Crc): Bytes
    requires c <= |Log(bodies, crc)|
  {
    WholeEnds(bodies, c, crc);
    Log(bodies, crc)[|Log(bodies[..Whole(bodies, c)], crc)|..c]
  }

  lemma {:induction false} BodiesAfter(bodies: seq<Bytes>, tail: Bytes, crc: Crc)
    requires AllFit(bodies)
    ensures Bodies(Log(bodies, crc) + tail, crc) == bodies + Bodies(tail, crc)
    decreases |bodies|
  {
    hide Next, Frame, Fits;
    if bodies == [] {
      assert [] + tail == tail;
    } else {
      var more := Log(bodies[1..], crc) + tail;
      assert Log(bodies, crc) + tail == Frame(bodies[0], crc) + more;
      NextReads(bodies[0], more, crc);
      BodiesAfter(bodies[1..], tail, crc);
      assert bodies == [bodies[0]] + bodies[1..];
    }
  }

  lemma {:induction false} TornPartIs(bodies: seq<Bytes>, c: nat, crc: Crc)
    requires c <= |Log(bodies, crc)|
    ensures var k, torn := Whole(bodies, c), TornPart(bodies, c, crc);
            (k == |bodies| ==> torn == []) &&
            (k < |bodies| ==> |torn| < PREFIX + |bodies[k]| && torn == Frame(bodies[k], crc)[..|torn|])
    decreases |bodies|
  {
    hide Frame;
    var k := Whole(bodies, c);
    if k == 0 {
      TornFirst(bodies, c, crc);
    } else {
      TornLater(bodies, c, crc);
      hide TornPart, Log;
      TornPartIs(bodies[1..], c - PREFIX - |bodies[0]|, crc);
    }
  }

  lemma TornFirst(bodies: seq<Bytes>, c: nat, crc: Crc)
    requires c <= |Log(bodies, crc)| && Whole(bodies, c) == 0
    ensures TornPart(bodies, c, crc) == if bodies == [] then [] else Frame(bodies[0], crc)[..c]
    ensures bodies != [] ==> c < PREFIX + |bodies[0]|
  {
    hide Frame;
    assert bodies[..0] == [] && Log(bodies[..0], crc) == [];
    if bodies != [] {
      var first, more := Frame(bodies[0], crc), Log(bodies[1..], crc);
      assert (first + more)[..c] == first[..c];
    }
  }

  lemma TornLater(bodies: seq<Bytes>, c: nat, crc: Crc)
    requires c <= |Log(bodies, crc)| && Whole(bodies, c) > 0
    ensures c >= PREFIX + |bodies[0]| && c - PREFIX - |bodies[0]| <= |Log(bodies[1..], crc)|
    ensures TornPart(bodies, c, crc) == TornPart(bodies[1..], c - PREFIX - |bodies[0]|, crc)
  {
    hide Frame;
    var k, used := Whole(bodies, c), PREFIX + |bodies[0]|;
    var first, more := Frame(bodies[0], crc), Log(bodies[1..], crc);
    WholeEnds(bodies, c, crc);
    WholeEnds(bodies[1..], c - used, crc);
    assert bodies[..k][0] == bodies[0] && bodies[..k][1..] == bodies[1..][..k - 1];
    var done := |Log(bodies[1..][..k - 1], crc)|;
    assert (first + more)[used + done..c] == more[done..c - used];
  }

  /** A body of which so many bytes arrived, where there were zeros. */
  function Filled(body: Bytes, arrived: nat): Bytes
    requires arrived <= |body|
  { body[..arrived] + Zeros(|body| - arrived) }

  lemma ZerosAreNone(s: Bytes, crc: Crc)
    requires forall i :: 0 <= i < |s| ==> s[i] == 0
    ensures Bodies(s, crc) == []
  {
    assert s == Zeros(|s|);
    Unreserved(|s|, crc);
  }

  /**
    A frame of which the length and the checksum arrived, with zeros behind what
    arrived of its body: it is found exactly when there is room for all of it and
    the zeros in place of what is missing leave the checksum as it was.
   */
  lemma TornFrame(body: Bytes, arrived: nat, room: nat, crc: Crc)
    requires Fits(body) && arrived <= |body|
    ensures Bodies(Frame(body, crc)[..PREFIX + arrived] + Zeros(room), crc) ==
      if |body| - arrived <= room && crc(Filled(body, arrived)) == crc(body) then [Filled(body, arrived)] else []
  {
    hide Le, ReadNum, Bodies;
    Widths();
    var t := Frame(body, crc)[..PREFIX + arrived] + Zeros(room);
    var rest := body[..arrived] + Zeros(room);
    assert t == Le(|body|, 4) + (Le(crc(body), 4) + rest);
    NumReads(|body|, 4, Le(crc(body), 4) + rest);
    NumReads(crc(body), 4, rest);
    if |body| - arrived <= room {
      assert rest[..|body|] == Filled(body, arrived);
      ZerosAreNone(rest[|body|..], crc);
    }
    OneThenNone(t, crc);
  }

  lemma OneThenNone(s: Bytes, crc: Crc)
    ensures Next(s, crc) == None ==> Bodies(s, crc) == []
    ensures Next(s, crc).Some? && Bodies(Next(s, crc).value.rest, crc) == [] ==>
      Bodies(s, crc) == [Next(s, crc).value.value]
  {
    hide Next;
  }

  /** A frame of which not even the checksum arrived, with zeros behind: what is found, if anything, is zeros. */
  lemma TornHead(head: Bytes, room: nat, crc: Crc)
    requires |head| <= PREFIX
    ensures var found := Bodies(head + Zeros(room), crc);
            found == [] || exists n :: found == [Zeros(n)]
    ensures head == [] ==> Bodies(head + Zeros(room), crc) == []
  {
    var t := head + Zeros(room);
    OneThenNone(t, crc);
    hide Bodies, FromLe;
    if head == [] {
      ZerosAreNone(t, crc);
    } else if Next(t, crc).Some? {
      var got := Next(t, crc).value;
      assert t[4..][4..] == t[PREFIX..];
      assert got.value == Zeros(|got.value|);
      ZerosAreNone(got.rest, crc);
    }
  }

  /**
    A write behind a log that the disk tore after `c` bytes, zeros being there
    before it: opening finds the log, the frames that arrived whole, and what the
    torn one with zeros behind it opens with.
   */
  lemma TornWrite(bodies: seq<Bytes>, staged: seq<Bytes>, c: nat, room: nat, crc: Crc)
    requires AllFit(bodies) && AllFit(staged) && c <= |Log(staged, crc)|
    ensures Bodies(Log(bodies, crc) + Log(staged, crc)[..c] + Zeros(room), crc) ==
      bodies + staged[..Whole(staged, c)] + Bodies(TornPart(staged, c, crc) + Zeros(room), crc)
  {
    hide Log, Next, Fits, Bodies;
    var k := Whole(staged, c);
    WholeEnds(staged, c, crc);
    var torn := TornPart(staged, c, crc);
    LogConcat(staged[..k], staged[k..], crc);
    assert staged[..k] + staged[k..] == staged;
    LogConcat(bodies, staged[..k], crc);
    BodiesAfter(bodies + staged[..k], torn + Zeros(room), crc);
    assert Log(staged, crc)[..c] == Log(staged[..k], crc) + torn;
    assert Log(bodies, crc) + Log(staged, crc)[..c] + Zeros(room)
        == Log(bodies + staged[..k], crc) + (torn + Zeros(room));
  }

  /**
    So where the checksum of the torn frame arrived, or nothing of it did, opening
    finds the frames that arrived whole, or those and one more: the torn frame with
    zeros for what is missing of it, if the zeros leave its checksum as it was. That
    frame is the one that was written, or another with its checksum.
   */
  lemma TornWriteIs(bodies: seq<Bytes>, staged: seq<Bytes>, c: nat, room: nat, crc: Crc)
    requires AllFit(bodies) && AllFit(staged) && c <= |Log(staged, crc)|
    ensures var k, torn := Whole(staged, c), TornPart(staged, c, crc);
            var found := Bodies(Log(bodies, crc) + Log(staged, crc)[..c] + Zeros(room), crc);
            (torn == [] ==> found == bodies + staged[..k]) &&
            (|torn| >= PREFIX ==>
               k < |staged| && |torn| - PREFIX <= |staged[k]| &&
               var filled := Filled(staged[k], |torn| - PREFIX);
               found == bodies + staged[..k] +
                 if PREFIX + |staged[k]| <= |torn| + room && crc(filled) == crc(staged[k]) then [filled] else [])
  {
    hide Log, Frame, Bodies, Fits, Filled, TornPart;
    TornWrite(bodies, staged, c, room, crc);
    TornPartIs(staged, c, crc);
    var k, torn := Whole(staged, c), TornPart(staged, c, crc);
    if torn == [] {
      TornHead(torn, room, crc);
      assert bodies + staged[..k] + [] == bodies + staged[..k];
    } else if |torn| >= PREFIX {
      TornFrame(staged[k], |torn| - PREFIX, room, crc);
    }
  }

  /** Room that was reserved and never written to is no frame: the log ends where it was. */
  lemma Reopens(bodies: seq<Bytes>, room: nat, crc: Crc)
    requires AllFit(bodies)
    ensures Bodies(Log(bodies, crc) + Zeros(room), crc) == bodies
  {
    Unreserved(room, crc);
    LogScans(bodies, Zeros(room), crc);
  }

  // ---- replay ----

  datatype Entry = Entry(epoch: nat, rec: Record)

  function EpochOf(body: Bytes): nat
    requires |body| >= MIN_BODY
  { FromLe(body[..8]) }

  function KindOf(body: Bytes): Byte
    requires |body| >= MIN_BODY
  { body[8] }

  function ReadEntry(body: Bytes): Option<Entry>
    requires |body| >= MIN_BODY
  {
    var rec :- ReadRecord(KindOf(body), body[9..]);
    Some(Entry(EpochOf(body), rec))
  }

  function BodyOf(e: Entry): (r: Bytes)
    ensures |r| == MIN_BODY + |e.rec.Payload()|
  { Le(e.epoch, 8) + [e.rec.Kind()] + e.rec.Payload() }

  lemma BodyParts(e: Entry)
    ensures var b := BodyOf(e); b[..8] == Le(e.epoch, 8) && KindOf(b) == e.rec.Kind() && b[9..] == e.rec.Payload()
  {
    hide Le;
  }

  /** An entry is read back from its body exactly when its record is well formed and its epoch fits. */
  lemma EntryReadsIff(e: Entry)
    ensures ReadEntry(BodyOf(e)) == Some(e) <==> e.rec.Valid() && e.epoch < U64
  {
    hide Le, ReadRecord, Record.Payload, Record.Valid;
    BodyParts(e);
    RecordRoundTripIff(e.rec);
    RecordExact(e.rec.Kind(), e.rec.Payload());
    Widths();
    LeWrites(Le(e.epoch, 8));
    if e.epoch < U64 { LeReads(e.epoch, 8); }
  }

  /** The highest epoch a checkpoint note folds, or the floor that was given. */
  function NoteFloor(bodies: seq<Bytes>, floor: nat): nat
    requires AllFit(bodies)
  {
    if bodies == [] then floor
    else
      var n := |bodies| - 1;
      var below := NoteFloor(bodies[..n], floor);
      if KindOf(bodies[n]) == KIND_CHECKPOINT_NOTE && EpochOf(bodies[n]) > below then EpochOf(bodies[n]) else below
  }

  /** What reached the sink, and whether every frame could be decoded. */
  datatype Outcome = Outcome(out: seq<Entry>, ok: bool) {
    function After(front: seq<Entry>): Outcome { Outcome(front + out, ok) }
  }

  /** The second pass of `replay`, frame by frame, `txn` being what is buffered. */
  function Replayed(bodies: seq<Bytes>, floor: nat, txn: seq<Entry>): Outcome
    requires AllFit(bodies)
  {
    if bodies == [] then Outcome([], true)
    else
      var rest := bodies[1..];
      match ReadEntry(bodies[0])
      case None => Outcome([], false)
      case Some(e) =>
        if e.rec.CheckpointNote? then Replayed(rest, floor, txn)
        else if e.rec.TxnBegin? then Replayed(rest, floor, [e])
        else if e.rec.TxnCommit? then Replayed(rest, floor, []).After(if e.epoch > floor then txn + [e] else [])
        else Replayed(rest, floor, txn + [e])
  }

  /**
    Entries handed to a sink one at a time, up to the first it refuses, and whether
    it took them all. What it says of an entry may depend on all it was given.
   */
  function Fed(done: seq<Entry>, more: seq<Entry>, takes: seq<Entry> -> bool): Outcome
    decreases |more|
  {
    if more == [] then Outcome(done, true)
    else
      var now := done + [more[0]];
      if takes(now) then Fed(now, more[1..], takes) else Outcome(now, false)
  }

  lemma {:induction false} FedMore(done: seq<Entry>, a: seq<Entry>, b: seq<Entry>, takes: seq<Entry> -> bool)
    ensures Fed(done, a + b, takes) ==
      var r := Fed(done, a, takes); if r.ok then Fed(r.out, b, takes) else r
    decreases |a|
  {
    if a == [] {
      assert a + b == b;
    } else {
      assert (a + b)[1..] == a[1..] + b;
      FedMore(done + [a[0]], a[1..], b, takes);
    }
  }

  /** A sink that refuses nothing is given everything. */
  lemma {:induction false} FedAll(done: seq<Entry>, more: seq<Entry>, takes: seq<Entry> -> bool)
    requires forall es :: takes(es)
    ensures Fed(done, more, takes) == Outcome(done + more, true)
    decreases |more|
  {
    if more == [] {
      assert done + more == done;
    } else {
      FedAll(done + [more[0]], more[1..], takes);
      assert done + [more[0]] + more[1..] == done + more;
    }
  }

  /** What a replay comes to with a sink that may refuse. */
  function Sunk(full: Outcome, takes: seq<Entry> -> bool): Outcome {
    var fed := Fed([], full.out, takes);
    Outcome(fed.out, fed.ok && full.ok)
  }

  // ---- what should be delivered ----

  /** Where the transaction that entry `j` is in begins: after the last commit, or at the last begin. */
  function TxnStart(es: seq<Entry>, j: nat): (i: nat)
    requires j <= |es|
    ensures i <= j
  {
    if j == 0 then 0
    else if es[j - 1].rec.TxnCommit? then j
    else if es[j - 1].rec.TxnBegin? then j - 1
    else TxnStart(es, j - 1)
  }

  function NoNotes(es: seq<Entry>): seq<Entry> {
    if es == [] then []
    else NoNotes(es[..|es| - 1]) + if es[|es| - 1].rec.CheckpointNote? then [] else [es[|es| - 1]]
  }

  /** The whole transaction that the commit at `j` ends. */
  function TxnAt(es: seq<Entry>, j: nat): seq<Entry>
    requires j < |es|
  { NoNotes(es[TxnStart(es, j)..j]) + [es[j]] }

  /** The transactions above the floor that are committed among the first `n` entries, each whole, in log order. */
  function Committed(es: seq<Entry>, n: nat, floor: nat): seq<Entry>
    requires n <= |es|
  {
    if n == 0 then []
    else
      Committed(es, n - 1, floor)
        + if es[n - 1].rec.TxnCommit? && es[n - 1].epoch > floor then TxnAt(es, n - 1) else []
  }

  predicate Decodes(bodies: seq<Bytes>, es: seq<Entry>)
    requires AllFit(bodies)
  { |es| == |bodies| && forall i :: 0 <= i < |es| ==> ReadEntry(bodies[i]) == Some(es[i]) }

  /** Replaying comes to what was committed, with what follows still to be replayed. */
  lemma {:induction false} ReplayedInto(bodies: seq<Bytes>, more: seq<Bytes>, es: seq<Entry>, floor: nat, i: nat)
    requires AllFit(bodies) && AllFit(more) && Decodes(bodies, es) && i <= |es|
    ensures AllFit((bodies + more)[i..])
    ensures Replayed((bodies + more)[i..], floor, NoNotes(es[TxnStart(es, i)..i])).After(Committed(es, i, floor))
         == Replayed(more, floor, NoNotes(es[TxnStart(es, |es|)..])).After(Committed(es, |es|, floor))
    decreases |es| - i
  {
    hide ReadEntry, KindOf, EpochOf, Committed, NoNotes, TxnStart, Replayed;
    var txn := NoNotes(es[TxnStart(es, i)..i]);
    var rest := (bodies + more)[i..];
    if i == |es| {
      assert rest == more && es[TxnStart(es, i)..i] == es[TxnStart(es, i)..];
    } else {
      ReplayedInto(bodies, more, es, floor, i + 1);
      assert rest[0] == bodies[i] && rest[1..] == (bodies + more)[i + 1..];
      TxnGrows(es, i);
      CommittedStep(es, i, floor);
      ReplayedStep(rest, es[i], floor, txn, Committed(es, i, floor));
    }
  }

  /** Replaying delivers the committed transactions above the floor, and nothing of any other. */
  lemma ReplayedIs(bodies: seq<Bytes>, es: seq<Entry>, floor: nat)
    requires AllFit(bodies) && Decodes(bodies, es)
    ensures Replayed(bodies, floor, []) == Outcome(Committed(es, |es|, floor), true)
  {
    hide ReadEntry, TxnStart, KindOf, EpochOf;
    ReplayedInto(bodies, [], es, floor, 0);
    assert (bodies + [])[0..] == bodies && es[0..0] == [] && TxnStart(es, 0) == 0 by { StartsAtNone(es); }
    var all := Committed(es, |es|, floor);
    assert all + [] == all;
    assert [] + Replayed(bodies, floor, []).out == Replayed(bodies, floor, []).out;
  }

  lemma StartsAtNone(es: seq<Entry>)
    ensures TxnStart(es, 0) == 0
  {
  }

  /** A record that cannot be read ends the replay, and what was committed before it has been delivered. */
  lemma ReplayedToFault(bodies: seq<Bytes>, bad: Bytes, es: seq<Entry>, floor: nat)
    requires AllFit(bodies) && Fits(bad) && Decodes(bodies, es) && ReadEntry(bad) == None
    ensures AllFit(bodies + [bad])
    ensures Replayed(bodies + [bad], floor, []) == Outcome(Committed(es, |es|, floor), false)
  {
    hide ReadEntry, TxnStart, KindOf, EpochOf;
    ReplayedInto(bodies, [bad], es, floor, 0);
    assert (bodies + [bad])[0..] == bodies + [bad] && es[0..0] == [] && TxnStart(es, 0) == 0 by { StartsAtNone(es); }
    var all := Committed(es, |es|, floor);
    assert all + [] == all;
    var r := Replayed(bodies + [bad], floor, []);
    assert [] + r.out == r.out;
  }

  lemma CommittedStep(es: seq<Entry>, i: nat, floor: nat)
    requires i < |es|
    ensures Committed(es, i + 1, floor) ==
      Committed(es, i, floor)
        + if es[i].rec.TxnCommit? && es[i].epoch > floor then NoNotes(es[TxnStart(es, i)..i]) + [es[i]] else []
  {
    hide NoNotes, TxnStart;
  }

  /** What is buffered after one entry more. */
  lemma TxnGrows(es: seq<Entry>, i: nat)
    requires i < |es|
    ensures var txn, more := NoNotes(es[TxnStart(es, i)..i]), NoNotes(es[TxnStart(es, i + 1)..i + 1]);
            more == if es[i].rec.TxnCommit? then []
                    else if es[i].rec.TxnBegin? then [es[i]]
                    else if es[i].rec.CheckpointNote? then txn
                    else txn + [es[i]]
  {
    var e := es[i];
    if e.rec.TxnBegin? {
      assert es[i..i + 1] == [e] && NoNotes([e][..0]) == [];
    } else if !e.rec.TxnCommit? {
      var run := es[TxnStart(es, i)..i + 1];
      assert run[..|run| - 1] == es[TxnStart(es, i)..i];
    }
  }

  lemma ReplayedStep(bodies: seq<Bytes>, e: Entry, floor: nat, txn: seq<Entry>, done: seq<Entry>)
    requires AllFit(bodies) && bodies != [] && ReadEntry(bodies[0]) == Some(e)
    ensures Replayed(bodies, floor, txn).After(done) ==
      if e.rec.CheckpointNote? then Replayed(bodies[1..], floor, txn).After(done)
      else if e.rec.TxnBegin? then Replayed(bodies[1..], floor, [e]).After(done)
      else if e.rec.TxnCommit?
      then Replayed(bodies[1..], floor, []).After(done + if e.epoch > floor then txn + [e] else [])
      else Replayed(bodies[1..], floor, txn + [e]).After(done)
  {
    hide ReadEntry, KindOf, EpochOf;
    if e.rec.TxnCommit? {
      var front := if e.epoch > floor then txn + [e] else [];
      var more := Replayed(bodies[1..], floor, []).out;
      assert done + (front + more) == (done + front) + more;
    }
  }

  // ---- what a crash leaves ----

  function BodiesOf(es: seq<Entry>): (r: seq<Bytes>)
    ensures |r| == |es| && forall i :: 0 <= i < |es| ==> r[i] == BodyOf(es[i])
  { seq(|es|, i requires 0 <= i < |es| => BodyOf(es[i])) }

  /** Entries that a log can carry. */
  predicate Loggable(es: seq<Entry>) {
    forall i :: 0 <= i < |es| ==> es[i].rec.Valid() && es[i].epoch < U64 && Fits(BodyOf(es[i]))
  }

  lemma LoggableDecodes(es: seq<Entry>)
    requires Loggable(es)
    ensures AllFit(BodiesOf(es)) && Decodes(BodiesOf(es), es)
  {
    hide ReadEntry, BodyOf, Record.Valid;
    forall i | 0 <= i < |es|
      ensures ReadEntry(BodiesOf(es)[i]) == Some(es[i])
    {
      EntryReadsIff(es[i]);
    }
  }

  /** What a file delivers from a floor up: its frames scanned, the notes' floor found, and the rest replayed. */
  function Delivers(s: Bytes, floor: nat, crc: Crc): Outcome {
    ScanIsLog(s, crc);
    Replayed(Bodies(s, crc), NoteFloor(Bodies(s, crc), floor), [])
  }

  /** A log and whatever opens with no frame deliver what was committed in the log. */
  lemma LogDelivers(es: seq<Entry>, tail: Bytes, floor: nat, crc: Crc)
    requires Loggable(es) && Next(tail, crc) == None
    ensures AllFit(BodiesOf(es))
    ensures Delivers(Log(BodiesOf(es), crc) + tail, floor, crc) ==
      Outcome(Committed(es, |es|, NoteFloor(BodiesOf(es), floor)), true)
  {
    hide ReadEntry, BodyOf, Next, Fits, Loggable, Replayed, NoteFloor, Committed;
    LoggableDecodes(es);
    LogScans(BodiesOf(es), tail, crc);
    ReplayedIs(BodiesOf(es), es, NoteFloor(BodiesOf(es), floor));
  }

  lemma {:induction false} CommittedCut(es: seq<Entry>, k: nat, n: nat, floor: nat)
    requires k <= n <= |es|
    ensures Committed(es[..n], k, floor) == Committed(es, k, floor)
  {
    hide NoNotes;
    if k > 0 {
      CommittedCut(es, k - 1, n, floor);
      StartCut(es, k - 1, n);
      assert es[..n][TxnStart(es, k - 1)..k - 1] == es[TxnStart(es, k - 1)..k - 1];
    }
  }

  lemma {:induction false} StartCut(es: seq<Entry>, j: nat, n: nat)
    requires j <= n <= |es|
    ensures TxnStart(es[..n], j) == TxnStart(es, j)
  {
    if j > 0 { StartCut(es, j - 1, n); }
  }

  lemma {:induction false} CommittedPrefix(es: seq<Entry>, k: nat, n: nat, floor: nat)
    requires k <= n <= |es|
    ensures Committed(es, k, floor) <= Committed(es, n, floor)
    decreases n
  {
    hide TxnAt;
    if k < n { CommittedPrefix(es, k, n - 1, floor); }
  }

  lemma BodiesCut(es: seq<Entry>, k: nat)
    requires k <= |es|
    ensures BodiesOf(es)[..k] == BodiesOf(es[..k])
  {
    hide BodyOf;
  }

  /**
    Cut at any byte, a log delivers without an error what was committed in the
    frames that are whole.
   */
  lemma CutDelivers(es: seq<Entry>, c: nat, floor: nat, crc: Crc)
    requires Loggable(es) && c <= |Log(BodiesOf(es), crc)|
    ensures var k := Whole(BodiesOf(es), c);
            AllFit(BodiesOf(es[..k])) &&
            Delivers(Log(BodiesOf(es), crc)[..c], floor, crc)
              == Outcome(Committed(es, k, NoteFloor(BodiesOf(es[..k]), floor)), true)
  {
    hide ReadEntry, BodyOf, Next, Replayed, NoteFloor, Committed, Record.Valid, Fits;
    var k := Whole(BodiesOf(es), c);
    LoggableDecodes(es);
    CutScans(BodiesOf(es), c, crc);
    BodiesCut(es, k);
    LoggableDecodes(es[..k]);
    var low := NoteFloor(BodiesOf(es[..k]), floor);
    ReplayedIs(BodiesOf(es[..k]), es[..k], low);
    CommittedCut(es, k, k, low);
  }

  /** The highest epoch that a note among some entries folds, or the floor that was given. */
  function FloorOf(es: seq<Entry>, floor: nat): (r: nat)
    ensures r >= floor
  {
    if es == [] then floor
    else
      var n := |es| - 1;
      var below := FloorOf(es[..n], floor);
      if es[n].rec.CheckpointNote? && es[n].epoch > below then es[n].epoch else below
  }

  lemma {:induction false} FloorIs(es: seq<Entry>, floor: nat)
    requires Loggable(es) && AllFit(BodiesOf(es))
    ensures NoteFloor(BodiesOf(es), floor) == FloorOf(es, floor)
  {
    hide BodyOf, KindOf, EpochOf, Record.Valid, Fits;
    if es != [] {
      var n := |es| - 1;
      BodiesCut(es, n);
      FloorIs(es[..n], floor);
      BodyReads(es[n]);
    }
  }

  lemma BodyReads(e: Entry)
    requires e.epoch < U64
    ensures EpochOf(BodyOf(e)) == e.epoch && KindOf(BodyOf(e)) == e.rec.Kind()
    ensures KindOf(BodyOf(e)) == KIND_CHECKPOINT_NOTE <==> e.rec.CheckpointNote?
  {
    hide Le, FromLe, BodyOf, Record.Payload;
    BodyParts(e);
    Widths();
    LeReads(e.epoch, 8);
  }

  lemma {:induction false} FloorGrows(es: seq<Entry>, k: nat, floor: nat)
    requires k <= |es|
    ensures FloorOf(es[..k], floor) <= FloorOf(es, floor)
  {
    if k < |es| {
      var n := |es| - 1;
      FloorGrows(es[..n], k, floor);
      assert es[..n][..k] == es[..k];
    } else {
      assert es[..k] == es;
    }
  }

  lemma {:induction false} NoNotesKeeps(es: seq<Entry>, e: Entry)
    ensures e in NoNotes(es) ==> e in es
  {
    if es != [] {
      NoNotesKeeps(es[..|es| - 1], e);
      assert es == es[..|es| - 1] + [es[|es| - 1]];
    }
  }

  lemma {:induction false} NoCommitInside(es: seq<Entry>, j: nat)
    requires j <= |es|
    ensures forall i :: TxnStart(es, j) <= i < j ==> !es[i].rec.TxnCommit?
  {
    if j > 0 { NoCommitInside(es, j - 1); }
  }

  /** Of a transaction only the last entry is a commit. */
  lemma OneCommit(es: seq<Entry>, j: nat, e: Entry)
    requires j < |es| && es[j].rec.TxnCommit? && e in TxnAt(es, j) && e.rec.TxnCommit?
    ensures e == es[j]
  {
    hide NoNotes, TxnStart;
    var run := es[TxnStart(es, j)..j];
    NoCommitInside(es, j);
    NoNotesKeeps(run, e);
    assert forall i :: 0 <= i < |run| ==> run[i] == es[TxnStart(es, j) + i];
    assert forall x :: x in run ==> !x.rec.TxnCommit?;
  }

  /** Every commit that is delivered is above the floor. */
  lemma {:induction false} CommitsAbove(es: seq<Entry>, n: nat, floor: nat, e: Entry)
    requires n <= |es| && e in Committed(es, n, floor) && e.rec.TxnCommit?
    ensures e.epoch > floor
    decreases n
  {
    hide TxnAt;
    if e in Committed(es, n - 1, floor) {
      CommitsAbove(es, n - 1, floor, e);
    } else {
      OneCommit(es, n - 1, e);
    }
  }

  /** Every commit above the floor is delivered. */
  lemma {:induction false} CommitThere(es: seq<Entry>, n: nat, floor: nat, j: nat)
    requires j < n <= |es| && es[j].rec.TxnCommit? && es[j].epoch > floor
    ensures es[j] in Committed(es, n, floor)
    decreases n
  {
    if j < n - 1 { CommitThere(es, n - 1, floor, j); }
  }

  /** Where no commit lies between two floors they deliver the same. */
  lemma {:induction false} SameAbove(es: seq<Entry>, n: nat, low: nat, high: nat)
    requires n <= |es| && low <= high
    requires forall j :: 0 <= j < n && es[j].rec.TxnCommit? && es[j].epoch > low ==> es[j].epoch > high
    ensures Committed(es, n, low) == Committed(es, n, high)
    decreases n
  {
    hide TxnAt;
    if n > 0 { SameAbove(es, n - 1, low, high); }
  }

  /** No commit in the first `k` entries is above the floor their own notes set and not above that of all notes. */
  predicate NoneBetween(es: seq<Entry>, k: nat, low: nat, high: nat)
    requires k <= |es|
  { forall j :: 0 <= j < k && es[j].rec.TxnCommit? && es[j].epoch > low ==> es[j].epoch > high }

  lemma PrefixIff(es: seq<Entry>, k: nat, low: nat, high: nat)
    requires k <= |es| && low <= high
    ensures Committed(es, k, low) <= Committed(es, |es|, high) <==> NoneBetween(es, k, low, high)
  {
    hide Committed;
    if NoneBetween(es, k, low, high) {
      SameAbove(es, k, low, high);
      CommittedPrefix(es, k, |es|, high);
    } else {
      var j :| 0 <= j < k && es[j].rec.TxnCommit? && low < es[j].epoch <= high;
      CommitThere(es, k, low, j);
      if es[j] in Committed(es, |es|, high) { CommitsAbove(es, |es|, high, es[j]); }
    }
  }

  /**
    What a cut delivers opens what the whole log delivers, exactly when the notes
    that were cut off fold no transaction that the rest had still to deliver.
   */
  lemma CutIsPrefixIff(es: seq<Entry>, c: nat, floor: nat, crc: Crc)
    requires Loggable(es) && c <= |Log(BodiesOf(es), crc)|
    ensures var k := Whole(BodiesOf(es), c);
            var cut := Delivers(Log(BodiesOf(es), crc)[..c], floor, crc);
            var full := Delivers(Log(BodiesOf(es), crc), floor, crc);
            cut.ok && full.ok &&
            (cut.out <= full.out <==> NoneBetween(es, k, FloorOf(es[..k], floor), FloorOf(es, floor)))
  {
    hide ReadEntry, BodyOf, Next, Replayed, NoteFloor, Committed, Record.Valid, Fits, Delivers, NoneBetween, FloorOf;
    var k := Whole(BodiesOf(es), c);
    CutDelivers(es, c, floor, crc);
    ShortIsNone([], crc);
    LogDelivers(es, [], floor, crc);
    assert Log(BodiesOf(es), crc) + [] == Log(BodiesOf(es), crc);
    FloorIs(es[..k], floor);
    FloorIs(es, floor);
    FloorGrows(es, k, floor);
    PrefixIff(es, k, FloorOf(es[..k], floor), FloorOf(es, floor));
  }

  /** A transaction and the note that folds it, cut between the two. */
  lemma LostNote(crc: Crc)
    ensures var es := [Entry(1, TxnBegin), Entry(1, TxnCommit), Entry(1, CheckpointNote)];
            |Log(BodiesOf(es), crc)| == 51
            && Delivers(Log(BodiesOf(es), crc)[..34], 0, crc) == Outcome(es[..2], true)
            && Delivers(Log(BodiesOf(es), crc), 0, crc) == Outcome([], true)
  {
    hide Le, Frame, Replayed, Delivers, Next;
    var es := [Entry(1, TxnBegin), Entry(1, TxnCommit), Entry(1, CheckpointNote)];
    var bodies := BodiesOf(es);
    assert |bodies[0]| == 9 && |bodies[1]| == 9 && |bodies[2]| == 9;
    LogOf3(bodies, crc);
    CutDelivers(es, 34, 0, crc);
    ShortIsNone([], crc);
    LogDelivers(es, [], 0, crc);
    assert Log(bodies, crc) + [] == Log(bodies, crc);
    FloorIs(es[..2], 0);
    FloorIs(es, 0);
    LostNoteFloors(es);
  }

  lemma LogOf3(bodies: seq<Bytes>, crc: Crc)
    requires |bodies| == 3 && |bodies[0]| == |bodies[1]| == |bodies[2]| == 9
    ensures |Log(bodies, crc)| == 51 && Whole(bodies, 34) == 2
  {
    hide Frame;
    var rest := bodies[1..];
    assert |Log(rest[1..][1..], crc)| == 0;
    assert |Log(rest[1..], crc)| == 17 && |Log(rest, crc)| == 34;
    assert Whole(rest[1..], 0) == 0 && Whole(rest, 17) == 1;
  }

  lemma LostNoteFloors(es: seq<Entry>)
    requires es == [Entry(1, TxnBegin), Entry(1, TxnCommit), Entry(1, CheckpointNote)]
    ensures FloorOf(es[..2], 0) == 0 && FloorOf(es, 0) == 1
    ensures Committed(es, 2, 0) == es[..2] && Committed(es, 3, 1) == []
  {
    FloorStep(es[..2], 0);
    FloorStep(es[..1], 0);
    FloorStep(es, 0);
    assert es[..2][..1] == es[..1] && es[..1][..0] == [];
    hide FloorOf, Committed;
    CommittedNone(es, 0);
    CommittedNone(es, 1);
    CommittedStep(es, 0, 0);
    CommittedStep(es, 1, 0);
    CommittedStep(es, 0, 1);
    CommittedStep(es, 1, 1);
    CommittedStep(es, 2, 1);
    StartsAtBegin(es, 0);
    hide TxnStart;
    assert es[0..1] == [es[0]];
    NoNotesIn([es[0]]);
    assert es[..2] == [es[0], es[1]];
  }

  lemma FloorStep(es: seq<Entry>, floor: nat)
    requires es != []
    ensures var n := |es| - 1;
            var below := FloorOf(es[..n], floor);
            FloorOf(es, floor) ==
              if es[n].rec.CheckpointNote? && es[n].epoch > below then es[n].epoch else below
    ensures FloorOf([], floor) == floor
  {
  }

  lemma CommittedNone(es: seq<Entry>, floor: nat)
    ensures Committed(es, 0, floor) == []
  {
  }

  lemma StartsAtBegin(es: seq<Entry>, j: nat)
    requires j < |es| && es[j].rec.TxnBegin?
    ensures TxnStart(es, j + 1) == j
  {
  }

  /** Entries between a begin and a commit. */
  predicate Inner(es: seq<Entry>) {
    forall i :: 0 <= i < |es| ==> !es[i].rec.TxnBegin? && !es[i].rec.TxnCommit? && !es[i].rec.CheckpointNote?
  }

  /** A transaction is delivered whole once its commit is there, and until then not at all. */
  lemma CommitPoint(es: seq<Entry>, begin: Entry, mid: seq<Entry>, commit: Entry, floor: nat)
    requires begin.rec.TxnBegin? && commit.rec.TxnCommit? && Inner(mid)
    ensures var open := es + [begin] + mid;
            Committed(open, |open|, floor) == Committed(es, |es|, floor) &&
            Committed(open + [commit], |open| + 1, floor)
              == Committed(es, |es|, floor) + if commit.epoch > floor then [begin] + mid + [commit] else []
  {
    hide Committed, NoNotes;
    var open := es + [begin] + mid;
    OpenTxn(es, begin, mid, |mid|, floor);
    assert mid[..|mid|] == mid;
    var all := open + [commit];
    CommittedCut(all, |open|, |open|, floor);
    assert all[..|open|] == open;
    StartCut(all, |open|, |open|);
    CommittedStep(all, |open|, floor);
    assert all[|es|..|open|] == [begin] + mid;
    NoNotesIn([begin] + mid);
  }

  lemma {:induction false} OpenTxn(es: seq<Entry>, begin: Entry, mid: seq<Entry>, k: nat, floor: nat)
    requires begin.rec.TxnBegin? && Inner(mid) && k <= |mid|
    ensures var open := es + [begin] + mid[..k];
            TxnStart(open, |open|) == |es| && Committed(open, |open|, floor) == Committed(es, |es|, floor)
  {
    hide NoNotes, Committed;
    var open := es + [begin] + mid[..k];
    var n := |open| - 1;
    CommittedStep(open, n, floor);
    CommittedCut(open, n, n, floor);
    StartCut(open, n, n);
    if k == 0 {
      assert open[..n] == es;
    } else {
      OpenTxn(es, begin, mid, k - 1, floor);
      assert open[..n] == es + [begin] + mid[..k - 1] && open[n] == mid[k - 1];
    }
  }

  lemma {:induction false} NoNotesIn(es: seq<Entry>)
    requires forall i :: 0 <= i < |es| ==> !es[i].rec.CheckpointNote?
    ensures NoNotes(es) == es
  {
    if es != [] {
      NoNotesIn(es[..|es| - 1]);
      assert es == es[..|es| - 1] + [es[|es| - 1]];
    }
  }

  /** A transaction's entries, from its begin to its commit. */
  predicate IsTxn(txn: seq<Entry>) {
    |txn| >= 2 && txn[0].rec.TxnBegin? && txn[|txn| - 1].rec.TxnCommit? && Inner(txn[1..|txn| - 1])
  }

  /** Some entries and the front of a transaction: the rest of it changes neither what is delivered nor the floor. */
  lemma FrontOfTxn(es: seq<Entry>, txn: seq<Entry>, k: nat, floor: nat)
    requires IsTxn(txn) && k <= |txn|
    ensures var all := es + txn[..k];
            Committed(all, |all|, floor) ==
              Committed(es, |es|, floor) + if k == |txn| && txn[k - 1].epoch > floor then txn else []
  {
    hide Committed, TxnStart, NoNotes;
    var begin, mid, commit := txn[0], txn[1..|txn| - 1], txn[|txn| - 1];
    var all := es + txn[..k];
    if k == 0 {
      assert all == es;
    } else if k < |txn| {
      OpenTxn(es, begin, mid, k - 1, floor);
      FrontParts(txn, k);
      assert es + ([begin] + mid[..k - 1]) == es + [begin] + mid[..k - 1];
    } else {
      CommitPoint(es, begin, mid, commit, floor);
      FrontParts(txn, k);
      assert es + ([begin] + mid + [commit]) == es + [begin] + mid + [commit];
    }
  }

  lemma FrontParts<T>(s: seq<T>, k: nat)
    requires |s| >= 2 && 0 < k <= |s|
    ensures k < |s| ==> s[..k] == [s[0]] + s[1..|s| - 1][..k - 1]
    ensures k == |s| ==> s[..k] == s == [s[0]] + s[1..|s| - 1] + [s[|s| - 1]]
  {
  }

  lemma {:induction false} FloorOfFront(es: seq<Entry>, txn: seq<Entry>, k: nat, floor: nat)
    requires IsTxn(txn) && k <= |txn|
    ensures FloorOf(es + txn[..k], floor) == FloorOf(es, floor)
  {
    var all := es + txn[..k];
    if k == 0 {
      assert all == es;
    } else {
      FloorOfFront(es, txn, k - 1, floor);
      assert all[..|all| - 1] == es + txn[..k - 1] && all[|all| - 1] == txn[k - 1];
      if 0 < k - 1 < |txn| - 1 { assert txn[k - 1] == txn[1..|txn| - 1][k - 2]; }
    }
  }

  lemma LoggableParts(a: seq<Entry>, b: seq<Entry>, k: nat)
    requires Loggable(a) && Loggable(b) && k <= |b|
    ensures Loggable(a + b[..k]) && BodiesOf(a + b[..k]) == BodiesOf(a) + BodiesOf(b)[..k]
  {
    hide BodyOf, Record.Valid, Fits;
  }

  /** What a log with a front of a transaction behind it delivers, whatever opens with no frame behind that. */
  lemma TxnDelivers(es: seq<Entry>, txn: seq<Entry>, k: nat, tail: Bytes, floor: nat, crc: Crc)
    requires Loggable(es) && Loggable(txn) && IsTxn(txn) && k <= |txn| && Next(tail, crc) == None
    ensures Delivers(Log(BodiesOf(es) + BodiesOf(txn)[..k], crc) + tail, floor, crc) ==
      Outcome(Committed(es, |es|, FloorOf(es, floor)) +
                if k == |txn| && txn[k - 1].epoch > FloorOf(es, floor) then txn else [], true)
  {
    hide BodyOf, Record.Valid, Fits, Delivers, Next, Committed, FloorOf, IsTxn, Log, Loggable;
    var all := es + txn[..k];
    LoggableParts(es, txn, k);
    LogDelivers(all, tail, floor, crc);
    FloorIs(all, floor);
    FloorOfFront(es, txn, k, floor);
    FrontOfTxn(es, txn, k, FloorOf(es, floor));
  }

  lemma {:induction false} WholeIff(bodies: seq<Bytes>, c: nat, crc: Crc)
    requires c <= |Log(bodies, crc)|
    ensures Whole(bodies, c) == |bodies| <==> c == |Log(bodies, crc)|
    decreases |bodies|
  {
    hide Frame;
    if bodies != [] && PREFIX + |bodies[0]| <= c {
      WholeIff(bodies[1..], c - PREFIX - |bodies[0]|, crc);
    }
  }

  /**
    A transaction written behind a log and cut at any byte: replay delivers what was
    committed before it, or that and the whole transaction, and the second exactly
    when every byte of it is there.
   */
  lemma CutTxn(es: seq<Entry>, txn: seq<Entry>, c: nat, floor: nat, crc: Crc)
    requires Loggable(es) && Loggable(txn) && IsTxn(txn) && c <= |Log(BodiesOf(txn), crc)|
    ensures var before := Committed(es, |es|, FloorOf(es, floor));
            Delivers(Log(BodiesOf(es), crc) + Log(BodiesOf(txn), crc)[..c], floor, crc) ==
              Outcome(if c == |Log(BodiesOf(txn), crc)| && txn[|txn| - 1].epoch > FloorOf(es, floor)
                      then before + txn else before, true)
  {
    hide BodyOf, Record.Valid, Delivers, Next, Committed, FloorOf, IsTxn, Log, Loggable, TornPart, Fits, Frame, Whole;
    var staged := BodiesOf(txn);
    var k := Whole(staged, c);
    LoggableDecodes(es);
    LoggableDecodes(txn);
    CutTail(staged, c, crc);
    LogConcat(BodiesOf(es), staged[..k], crc);
    var torn := TornPart(staged, c, crc);
    TxnDelivers(es, txn, k, torn, floor, crc);
    WholeIff(staged, c, crc);
    assert Log(BodiesOf(es), crc) + (Log(staged[..k], crc) + torn)
        == Log(BodiesOf(es), crc) + Log(staged[..k], crc) + torn;
    var before := Committed(es, |es|, FloorOf(es, floor));
    assert before + [] == before;
  }

  // ---- a transaction torn into zeroed room ----

  /** Two bodies that the checksum does not tell apart. */
  predicate Collide(a: Bytes, b: Bytes, crc: Crc) { a != b && |a| == |b| && crc(a) == crc(b) }

  /** The transaction's bytes are all on the disk, those that did not arrive being zeros anyway. */
  predicate AllThere(txn: Bytes, c: nat, room: nat)
    requires c <= |txn|
  { |txn| <= c + room && txn[..c] + Zeros(|txn| - c) == txn }

  lemma ZerosAreNoRecord(n: nat)
    requires n >= MIN_BODY
    ensures ReadEntry(Zeros(n)) == None && KindOf(Zeros(n)) == 0
  {
  }

  /** Behind a front of a transaction a frame of zeros is refused, and nothing of the transaction went out. */
  lemma ZerosAfterTxn(es: seq<Entry>, txn: seq<Entry>, k: nat, n: nat, floor: nat)
    requires Loggable(es) && Loggable(txn) && IsTxn(txn) && k < |txn| && MIN_BODY <= n < U32
    ensures AllFit(BodiesOf(es) + BodiesOf(txn)[..k] + [Zeros(n)])
    ensures var bodies := BodiesOf(es) + BodiesOf(txn)[..k] + [Zeros(n)];
            Replayed(bodies, NoteFloor(bodies, floor), []) ==
              Outcome(Committed(es, |es|, FloorOf(es, floor)), false)
  {
    hide BodyOf, Record.Valid, Replayed, Next, Committed, FloorOf, IsTxn, Log, Loggable, ReadEntry;
    var all := es + txn[..k];
    LoggableParts(es, txn, k);
    LoggableDecodes(all);
    ZerosAreNoRecord(n);
    var bodies := BodiesOf(all) + [Zeros(n)];
    assert AllFit(bodies);
    assert NoteFloor(bodies, floor) == NoteFloor(BodiesOf(all), floor) by {
      assert bodies[..|bodies| - 1] == BodiesOf(all);
    }
    FloorIs(all, floor);
    FloorOfFront(es, txn, k, floor);
    ReplayedToFault(BodiesOf(all), Zeros(n), all, FloorOf(es, floor));
    FrontOfTxn(es, txn, k, FloorOf(es, floor));
    var before := Committed(es, |es|, FloorOf(es, floor));
    assert before + [] == before;
  }

  /**
    A transaction written into zeroed room behind a log and torn at any byte: what
    is delivered is what was committed before it, or that and the whole transaction,
    or its torn frame collides with what the zeros made of it. Where there is no such
    collision it is the second exactly when every byte of it is there, and an error
    goes with the first at most.
   */
  lemma TornTxn(es: seq<Entry>, txn: seq<Entry>, c: nat, room: nat, floor: nat, crc: Crc)
    requires Loggable(es) && Loggable(txn) && IsTxn(txn) && c <= |Log(BodiesOf(txn), crc)|
    ensures var staged, before := BodiesOf(txn), Committed(es, |es|, FloorOf(es, floor));
            var d := Delivers(Log(BodiesOf(es), crc) + Log(staged, crc)[..c] + Zeros(room), floor, crc);
            var k, torn := Whole(staged, c), TornPart(staged, c, crc);
            (k < |txn| && PREFIX <= |torn| <= PREFIX + |staged[k]| &&
             Collide(Filled(staged[k], |torn| - PREFIX), staged[k], crc)) ||
            if AllThere(Log(staged, crc), c, room)
            then d == Outcome(if txn[|txn| - 1].epoch > FloorOf(es, floor) then before + txn else before, true)
            else d.out == before
  {
    hide BodyOf, Record.Valid, Delivers, Next, Committed, FloorOf, IsTxn, Log, Loggable, TornPart, Fits, Frame, Whole;
    hide AllThere, Collide, Filled;
    var staged := BodiesOf(txn);
    LoggableDecodes(txn);
    if AllThere(Log(staged, crc), c, room) {
      TornButThere(es, txn, c, room, floor, crc);
    } else {
      var k, torn := Whole(staged, c), TornPart(staged, c, crc);
      TornPartIs(staged, c, crc);
      if !(k < |txn| && |torn| >= PREFIX && Collide(Filled(staged[k], |torn| - PREFIX), staged[k], crc)) {
        TornNotThere(es, txn, c, room, floor, crc);
      }
    }
  }

  lemma TornButThere(es: seq<Entry>, txn: seq<Entry>, c: nat, room: nat, floor: nat, crc: Crc)
    requires Loggable(es) && Loggable(txn) && IsTxn(txn) && c <= |Log(BodiesOf(txn), crc)|
    requires AllThere(Log(BodiesOf(txn), crc), c, room)
    ensures var staged, before := BodiesOf(txn), Committed(es, |es|, FloorOf(es, floor));
            Delivers(Log(BodiesOf(es), crc) + Log(staged, crc)[..c] + Zeros(room), floor, crc) ==
              Outcome(if txn[|txn| - 1].epoch > FloorOf(es, floor) then before + txn else before, true)
  {
    hide BodyOf, Record.Valid, Delivers, Next, Committed, FloorOf, IsTxn, Log, Loggable;
    var staged := BodiesOf(txn);
    var text := Log(staged, crc);
    var left := c + room - |text|;
    assert Zeros(room) == Zeros(|text| - c) + Zeros(left);
    var front := Log(BodiesOf(es), crc);
    assert front + text[..c] + Zeros(room) == front + (text[..c] + Zeros(|text| - c)) + Zeros(left);
    LogConcat(BodiesOf(es), staged, crc);
    assert staged[..|txn|] == staged;
    Unreserved(left, crc);
    TxnDelivers(es, txn, |txn|, Zeros(left), floor, crc);
    TxnLength(txn);
    var before := Committed(es, |es|, FloorOf(es, floor));
    assert before + [] == before;
  }

  lemma TxnLength(txn: seq<Entry>)
    requires IsTxn(txn)
    ensures |txn| >= 2
  {
  }

  /** What is delivered is by the frames that are found. */
  lemma FoundDelivers(s: Bytes, es: seq<Entry>, txn: seq<Entry>, k: nat, floor: nat, crc: Crc)
    requires Loggable(es) && Loggable(txn) && IsTxn(txn) && k < |txn|
    requires Bodies(s, crc) == BodiesOf(es) + BodiesOf(txn)[..k]
    ensures Delivers(s, floor, crc).out == Committed(es, |es|, FloorOf(es, floor))
  {
    hide BodyOf, Record.Valid, Bodies, Replayed, NoteFloor, Next, Committed, FloorOf, IsTxn, Log, Loggable, ReadEntry;
    var all := es + txn[..k];
    LoggableParts(es, txn, k);
    LoggableDecodes(all);
    FloorIs(all, floor);
    FloorOfFront(es, txn, k, floor);
    ReplayedIs(BodiesOf(all), all, FloorOf(es, floor));
    FrontOfTxn(es, txn, k, FloorOf(es, floor));
    var before := Committed(es, |es|, FloorOf(es, floor));
    assert before + [] == before;
  }

  lemma ZerosDeliver(s: Bytes, es: seq<Entry>, txn: seq<Entry>, k: nat, n: nat, floor: nat, crc: Crc)
    requires Loggable(es) && Loggable(txn) && IsTxn(txn) && k < |txn|
    requires Bodies(s, crc) == BodiesOf(es) + BodiesOf(txn)[..k] + [Zeros(n)]
    ensures Delivers(s, floor, crc).out == Committed(es, |es|, FloorOf(es, floor))
  {
    hide BodyOf, Record.Valid, Bodies, Replayed, NoteFloor, Next, Committed, FloorOf, IsTxn, Log, Loggable;
    ScanIsLog(s, crc);
    var bodies := Bodies(s, crc);
    assert bodies[|bodies| - 1] == Zeros(n) && Fits(bodies[|bodies| - 1]);
    ZerosAfterTxn(es, txn, k, n, floor);
  }

  /** A frame whose body the zeros complete is all there. */
  lemma LastCompleted(bodies: seq<Bytes>, c: nat, room: nat, crc: Crc)
    requires AllFit(bodies) && c <= |Log(bodies, crc)| && Whole(bodies, c) + 1 == |bodies|
    requires var k, torn := Whole(bodies, c), TornPart(bodies, c, crc);
             PREFIX <= |torn| <= PREFIX + |bodies[k]| <= |torn| + room && torn == Frame(bodies[k], crc)[..|torn|] &&
             Filled(bodies[k], |torn| - PREFIX) == bodies[k]
    ensures AllThere(Log(bodies, crc), c, room)
  {
    hide Log, Fits, Next, Frame;
    var k, torn := Whole(bodies, c), TornPart(bodies, c, crc);
    CutTail(bodies, c, crc);
    LogConcat(bodies[..k], [bodies[k]], crc);
    LogOne(bodies[k], crc);
    assert bodies[..k] + [bodies[k]] == bodies;
    FrameCompleted(bodies[k], |torn| - PREFIX, crc);
    var missing := PREFIX + |bodies[k]| - |torn|;
    assert Log(bodies[..k], crc) + torn + Zeros(missing) == Log(bodies[..k], crc) + (torn + Zeros(missing));
  }

  lemma FrameCompleted(body: Bytes, arrived: nat, crc: Crc)
    requires arrived <= |body| && Filled(body, arrived) == body
    ensures Frame(body, crc)[..PREFIX + arrived] + Zeros(|body| - arrived) == Frame(body, crc)
  {
    hide Le;
    var head := Le(|body|, 4) + Le(crc(body), 4);
    assert Frame(body, crc) == head + body;
    assert Frame(body, crc)[..PREFIX + arrived] == head + body[..arrived];
    assert head + body[..arrived] + Zeros(|body| - arrived) == head + (body[..arrived] + Zeros(|body| - arrived));
  }

  lemma TornNotThere(es: seq<Entry>, txn: seq<Entry>, c: nat, room: nat, floor: nat, crc: Crc)
    requires Loggable(es) && Loggable(txn) && IsTxn(txn) && c <= |Log(BodiesOf(txn), crc)|
    requires !AllThere(Log(BodiesOf(txn), crc), c, room)
    requires var staged := BodiesOf(txn);
             var k, torn := Whole(staged, c), TornPart(staged, c, crc);
             k < |txn| && PREFIX <= |torn| <= PREFIX + |staged[k]| ==>
               !Collide(Filled(staged[k], |torn| - PREFIX), staged[k], crc)
    ensures Delivers(Log(BodiesOf(es), crc) + Log(BodiesOf(txn), crc)[..c] + Zeros(room), floor, crc).out
      == Committed(es, |es|, FloorOf(es, floor))
  {
    hide BodyOf, Record.Valid, Bodies, Delivers, Next, Committed, FloorOf, IsTxn, Log, Loggable, Frame, Fits, TornPart;
    hide Whole;
    var front, staged := BodiesOf(es), BodiesOf(txn);
    var k, torn := Whole(staged, c), TornPart(staged, c, crc);
    var s := Log(front, crc) + Log(staged, crc)[..c] + Zeros(room);
    LoggableDecodes(es);
    LoggableDecodes(txn);
    TornWrite(front, staged, c, room, crc);
    TornPartIs(staged, c, crc);
    WholeIff(staged, c, crc);
    assert k < |txn| by {
      assert Log(staged, crc)[..|Log(staged, crc)|] + Zeros(0) == Log(staged, crc);
    }
    if |torn| < PREFIX {
      TornHead(torn, room, crc);
      var found := Bodies(torn + Zeros(room), crc);
      if found == [] {
        assert front + staged[..k] + [] == front + staged[..k];
        FoundDelivers(s, es, txn, k, floor, crc);
      } else {
        var n :| found == [Zeros(n)];
        ZerosDeliver(s, es, txn, k, n, floor, crc);
      }
    } else {
      TornBody(es, txn, c, room, floor, crc);
    }
  }

  lemma TornBody(es: seq<Entry>, txn: seq<Entry>, c: nat, room: nat, floor: nat, crc: Crc)
    requires Loggable(es) && Loggable(txn) && IsTxn(txn) && c <= |Log(BodiesOf(txn), crc)|
    requires AllFit(BodiesOf(es)) && AllFit(BodiesOf(txn)) && !AllThere(Log(BodiesOf(txn), crc), c, room)
    requires var staged := BodiesOf(txn);
             var k, torn := Whole(staged, c), TornPart(staged, c, crc);
             k < |txn| && PREFIX <= |torn| < PREFIX + |staged[k]| && torn == Frame(staged[k], crc)[..|torn|] &&
             !Collide(Filled(staged[k], |torn| - PREFIX), staged[k], crc)
    ensures Delivers(Log(BodiesOf(es), crc) + Log(BodiesOf(txn), crc)[..c] + Zeros(room), floor, crc).out
      == Committed(es, |es|, FloorOf(es, floor))
  {
    hide BodyOf, Record.Valid, Bodies, Delivers, Next, Committed, FloorOf, IsTxn, Log, Loggable, Frame, TornPart, Whole;
    hide AllThere;
    var front, staged := BodiesOf(es), BodiesOf(txn);
    var k, torn := Whole(staged, c), TornPart(staged, c, crc);
    var s := Log(front, crc) + Log(staged, crc)[..c] + Zeros(room);
    var arrived := |torn| - PREFIX;
    TornWrite(front, staged, c, room, crc);
    TornFrame(staged[k], arrived, room, crc);
    if |staged[k]| - arrived <= room && crc(Filled(staged[k], arrived)) == crc(staged[k]) {
      assert Filled(staged[k], arrived) == staged[k];
      if k + 1 == |txn| { LastCompleted(staged, c, room, crc); }
      assert front + staged[..k] + [staged[k]] == front + staged[..k + 1];
      FoundDelivers(s, es, txn, k + 1, floor, crc);
    } else {
      assert front + staged[..k] + [] == front + staged[..k];
      FoundDelivers(s, es, txn, k, floor, crc);
    }
  }

  /** A cut log is the frames that are whole and a part that opens with none. */
  lemma CutTail(bodies: seq<Bytes>, c: nat, crc: Crc)
    requires AllFit(bodies) && c <= |Log(bodies, crc)|
    ensures Log(bodies, crc)[..c] == Log(bodies[..Whole(bodies, c)], crc) + TornPart(bodies, c, crc)
    ensures Next(TornPart(bodies, c, crc), crc) == None
  {
    hide Log, Frame, Next, Fits;
    var k := Whole(bodies, c);
    WholeEnds(bodies, c, crc);
    LogConcat(bodies[..k], bodies[k..], crc);
    assert bodies[..k] + bodies[k..] == bodies;
    TornPartIs(bodies, c, crc);
    if k < |bodies| {
      TornIsNone(bodies[k], |TornPart(bodies, c, crc)|, crc);
    } else {
      ShortIsNone([], crc);
    }
  }

  // ---- rolling back ----

  /** The frames before the first whose epoch is above the floor. */
  function Kept(bodies: seq<Bytes>, floor: nat): (r: seq<Bytes>)
    requires AllFit(bodies)
    ensures r <= bodies
  {
    if bodies == [] || EpochOf(bodies[0]) > floor then [] else [bodies[0]] + Kept(bodies[1..], floor)
  }

  /** In a log whose epochs only go up, what is kept is every frame at or below the floor. */
  lemma {:induction false} KeptIsBelow(bodies: seq<Bytes>, floor: nat)
    requires AllFit(bodies)
    requires forall i, j :: 0 <= i <= j < |bodies| ==> EpochOf(bodies[i]) <= EpochOf(bodies[j])
    ensures forall i :: 0 <= i < |bodies| ==> (i < |Kept(bodies, floor)| <==> EpochOf(bodies[i]) <= floor)
  {
    hide EpochOf;
    if bodies != [] && EpochOf(bodies[0]) <= floor {
      var rest := bodies[1..];
      assert forall i :: 0 <= i < |rest| ==> rest[i] == bodies[i + 1];
      KeptIsBelow(rest, floor);
      assert forall i :: 0 < i < |bodies| ==> bodies[i] == rest[i - 1];
    }
  }
}
