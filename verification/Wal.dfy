/** The log file: checksummed frames after a magic header, replayed up to the first that is not whole. */
module Wal {
  import opened Values
  import opened Varint
  import opened Storage
  import opened Records
  import opened Codec

  type uint32 = x: int | 0 <= x < 0x1_0000_0000
  type Checksum = bytes -> uint32

  const TWO_32: int := 0x1_0000_0000
  const FRAME_HEADER := 8

  // ---- a run of records ----

  function EncodeRecords(recs: seq<Record>): bytes {
    if recs == [] then [] else EncodeRecord(recs[0]) + EncodeRecords(recs[1..])
  }

  function DecodeRecords(src: bytes, n: nat): Option<(seq<Record>, bytes)>
    decreases n
  {
    if n == 0 then Some(([], src))
    else
      match DecodeRecord(src)
      case None => None
      case Some((r, tail)) =>
        match DecodeRecords(tail, n - 1)
        case None => None
        case Some((rs, rest)) => Some(([r] + rs, rest))
  }

  predicate AllInBounds(recs: seq<Record>) { forall i :: 0 <= i < |recs| ==> InBounds(recs[i]) }

  lemma {:induction false} RecordsWrite(recs: seq<Record>, rest: bytes)
    requires AllInBounds(recs)
    ensures DecodeRecords(EncodeRecords(recs) + rest, |recs|) == Some((recs, rest))
  {
    hide DecodeRecord, EncodeRecord, InBounds;
    if recs == [] {
      assert EncodeRecords(recs) + rest == rest;
    } else {
      var tail := EncodeRecords(recs[1..]) + rest;
      assert EncodeRecords(recs) + rest == EncodeRecord(recs[0]) + tail;
      RecordIsCanonical(EncodeRecords(recs) + rest, recs[0], tail);
      RecordsWrite(recs[1..], rest);
      assert [recs[0]] + recs[1..] == recs;
    }
  }

  lemma {:induction false} RecordsRead(src: bytes, n: nat)
    requires DecodeRecords(src, n).Some?
    ensures var (recs, rest) := DecodeRecords(src, n).value;
            n == |recs| && AllInBounds(recs) && src == EncodeRecords(recs) + rest
    decreases n
  {
    hide DecodeRecord, EncodeRecord, InBounds;
    if n == 0 {
      assert EncodeRecords([]) + src == src;
    } else {
      var (r, tail) := DecodeRecord(src).value;
      var (rs, rest) := DecodeRecords(tail, n - 1).value;
      RecordIsCanonical(src, r, tail);
      RecordsRead(tail, n - 1);
      assert ([r] + rs)[1..] == rs;
      assert src == EncodeRecord(r) + (EncodeRecords(rs) + rest) == EncodeRecords([r] + rs) + rest;
    }
  }

  // ---- frames ----

  function FrameBody(recs: seq<Record>): bytes { Uvarint(|recs|) + EncodeRecords(recs) }

  /** The length field keeps the low 32 bits. */
  function Frame(crc: Checksum, recs: seq<Record>): (s: bytes)
    ensures |s| == FRAME_HEADER + |FrameBody(recs)|
  {
    var body := FrameBody(recs);
    LittleEndian(|body| % TWO_32, 4) + LittleEndian(crc(body), 4) + body
  }

  /** The transactions the reader accepts: at least one record, everything within bounds. */
  predicate Fits(recs: seq<Record>) {
    1 <= |recs| <= MAX_LEN && AllInBounds(recs) && |FrameBody(recs)| <= MAX_LEN
  }

  datatype Next = End | Bad | Good(recs: seq<Record>, rest: bytes)

  function ParseBody(body: bytes, rest: bytes): Next {
    match DecodeUvarint(body)
    case None => Bad
    case Some((count, tail)) =>
      if count == 0 || count > MAX_LEN then Bad
      else
        match DecodeRecords(tail, count)
        case None => Bad
        case Some((recs, left)) => if left != [] then Bad else Good(recs, rest)
  }

  /** Decodes one frame. The remaining length is compared as a 32-bit word. */
  function NextFrame(crc: Checksum, src: bytes): Next {
    if src == [] then End
    else if |src| < FRAME_HEADER then Bad
    else
      var n, sum, after := FromLittleEndian(src[..4]), FromLittleEndian(src[4..8]), src[FRAME_HEADER..];
      if n > MAX_LEN then Bad
      else if |after| % TWO_32 < n then Bad
      else if crc(after[..n]) != sum then Bad
      else ParseBody(after[..n], after[n..])
  }

  lemma BodyIsCanonical(body: bytes, rest: bytes, recs: seq<Record>)
    requires |body| <= MAX_LEN
    ensures ParseBody(body, rest) == Good(recs, rest) <==> Fits(recs) && body == FrameBody(recs)
  {
    hide DecodeRecords, EncodeRecords, Uvarint, DecodeUvarint, AllInBounds;
    if Fits(recs) && body == FrameBody(recs) {
      UvarintIsCanonical(body, |recs|, EncodeRecords(recs));
      RecordsWrite(recs, []);
      assert EncodeRecords(recs) + [] == EncodeRecords(recs);
    }
    if ParseBody(body, rest) == Good(recs, rest) {
      var (count, tail) := DecodeUvarint(body).value;
      UvarintIsCanonical(body, count, tail);
      RecordsRead(tail, count);
      assert EncodeRecords(recs) + [] == EncodeRecords(recs);
    }
  }

  lemma FrameParts(crc: Checksum, recs: seq<Record>, rest: bytes)
    requires |FrameBody(recs)| <= MAX_LEN
    ensures var src, body := Frame(crc, recs) + rest, FrameBody(recs);
            && FromLittleEndian(src[..4]) == |body| && FromLittleEndian(src[4..8]) == crc(body)
            && src[FRAME_HEADER..] == body + rest && (body + rest)[..|body|] == body && (body + rest)[|body|..] == rest
  {
    hide LittleEndian, FromLittleEndian, FrameBody;
    var src, body := Frame(crc, recs) + rest, FrameBody(recs);
    Widths();
    FixedReads(|body|, 4);
    FixedReads(crc(body), 4);
    assert src[..4] == LittleEndian(|body|, 4) && src[4..8] == LittleEndian(crc(body), 4);
  }

  /** A frame decodes exactly when it is a whole frame of a transaction within bounds whose length the
      32-bit remainder of what follows its header does not hide. */
  lemma FrameIsCanonical(crc: Checksum, src: bytes, recs: seq<Record>, rest: bytes)
    ensures NextFrame(crc, src) == Good(recs, rest) <==>
            && Fits(recs) && src == Frame(crc, recs) + rest
            && (|FrameBody(recs)| + |rest|) % TWO_32 >= |FrameBody(recs)|
  {
    hide FrameBody, ParseBody, AllInBounds, LittleEndian, FromLittleEndian;
    if Fits(recs) && src == Frame(crc, recs) + rest {
      FrameParts(crc, recs, rest);
      BodyIsCanonical(FrameBody(recs), rest, recs);
    }
    if NextFrame(crc, src) == Good(recs, rest) { FrameReads(crc, src, recs, rest); }
  }

  lemma FrameReads(crc: Checksum, src: bytes, recs: seq<Record>, rest: bytes)
    requires NextFrame(crc, src) == Good(recs, rest)
    ensures Fits(recs) && src == Frame(crc, recs) + rest
    ensures (|FrameBody(recs)| + |rest|) % TWO_32 >= |FrameBody(recs)|
  {
    hide FrameBody, AllInBounds, LittleEndian, FromLittleEndian, DecodeRecords, DecodeUvarint;
    var n, after := FromLittleEndian(src[..4]), src[FRAME_HEADER..];
    ParseRest(after[..n], after[n..], recs, rest);
    BodyIsCanonical(after[..n], rest, recs);
    Widths();
    FixedWrites(src[..4]);
    FixedWrites(src[4..8]);
    assert src == src[..4] + src[4..8] + (after[..n] + after[n..]);
  }

  lemma ParseRest(body: bytes, rest: bytes, recs: seq<Record>, rest': bytes)
    requires ParseBody(body, rest) == Good(recs, rest')
    ensures rest == rest'
  {}

  // ---- replay ----

  /** The transactions replay hands over: up to the first frame that does not decode. */
  function FramesOf(crc: Checksum, src: bytes): seq<seq<Record>>
    decreases |src|
  {
    match NextFrame(crc, src)
    case Good(recs, rest) => FrameReads(crc, src, recs, rest); [recs] + FramesOf(crc, rest)
    case _ => []
  }

  /** How many bytes those frames take: where replay truncates. */
  function GoodLength(crc: Checksum, src: bytes): (n: nat)
    ensures n <= |src|
    decreases |src|
  {
    match NextFrame(crc, src)
    case Good(recs, rest) => FrameReads(crc, src, recs, rest); |src| - |rest| + GoodLength(crc, rest)
    case _ => 0
  }

  function EncodeLog(crc: Checksum, frames: seq<seq<Record>>): bytes {
    if frames == [] then [] else Frame(crc, frames[0]) + EncodeLog(crc, frames[1..])
  }

  predicate AllFit(frames: seq<seq<Record>>) { forall i :: 0 <= i < |frames| ==> Fits(frames[i]) }

  /** A tail at which replay stops without delivering anything. */
  predicate Stops(crc: Checksum, tail: bytes) { !NextFrame(crc, tail).Good? }

  /** Every frame's length survives being compared with what follows its header, modulo 2^32. */
  predicate NoneHidden(crc: Checksum, frames: seq<seq<Record>>, tail: nat) {
    frames == [] ||
    ((|FrameBody(frames[0])| + |EncodeLog(crc, frames[1..])| + tail) % TWO_32 >= |FrameBody(frames[0])|
     && NoneHidden(crc, frames[1..], tail))
  }

  lemma FrameHidden(crc: Checksum, recs: seq<Record>, rest: bytes)
    requires Fits(recs)
    ensures Stops(crc, Frame(crc, recs) + rest) <==> (|FrameBody(recs)| + |rest|) % TWO_32 < |FrameBody(recs)|
  {
    hide FrameBody, ParseBody, AllInBounds, LittleEndian, FromLittleEndian;
    FrameParts(crc, recs, rest);
    FrameIsCanonical(crc, Frame(crc, recs) + rest, recs, rest);
  }

  /** Replay delivers every transaction, in order, if and only if every one is within bounds and no
      frame's length is hidden. */
  lemma {:induction false} ReplayExact(crc: Checksum, frames: seq<seq<Record>>, tail: bytes)
    requires Stops(crc, tail)
    ensures FramesOf(crc, EncodeLog(crc, frames) + tail) == frames <==> AllFit(frames) && NoneHidden(crc, frames, |tail|)
    ensures AllFit(frames) && NoneHidden(crc, frames, |tail|) ==> GoodLength(crc, EncodeLog(crc, frames) + tail) == |EncodeLog(crc, frames)|
  {
    hide NextFrame, Frame, Fits, FrameBody;
    if frames == [] {
      assert EncodeLog(crc, frames) + tail == tail;
    } else {
      var src, rest := EncodeLog(crc, frames) + tail, EncodeLog(crc, frames[1..]) + tail;
      assert src == Frame(crc, frames[0]) + rest;
      FrameIsCanonical(crc, src, frames[0], rest);
      ReplayExact(crc, frames[1..], tail);
      assert AllFit(frames) <==> Fits(frames[0]) && AllFit(frames[1..]) by { assert frames == [frames[0]] + frames[1..]; }
      assert [frames[0]] + frames[1..] == frames;
      if FramesOf(crc, src) == frames { FirstFrame(crc, src, frames, rest); }
    }
  }

  lemma FirstFrame(crc: Checksum, src: bytes, frames: seq<seq<Record>>, rest: bytes)
    requires frames != [] && FramesOf(crc, src) == frames && src == Frame(crc, frames[0]) + rest
    ensures NextFrame(crc, src) == Good(frames[0], rest) && FramesOf(crc, rest) == frames[1..]
  {
    hide NextFrame, Frame, Fits, FrameBody;
    var next := NextFrame(crc, src);
    FrameReads(crc, src, next.recs, next.rest);
    assert next.recs == frames[0];
    assert src[|Frame(crc, frames[0])|..] == rest == next.rest;
  }

  lemma {:induction false} ShortLogHidesNothing(crc: Checksum, frames: seq<seq<Record>>, tail: nat)
    requires |EncodeLog(crc, frames)| + tail < TWO_32
    ensures NoneHidden(crc, frames, tail)
  {
    hide FrameBody;
    if frames != [] { ShortLogHidesNothing(crc, frames[1..], tail); }
  }

  /** In a file below 2^32 bytes replay delivers exactly the whole frames before the tail. */
  lemma ReplayWhole(crc: Checksum, frames: seq<seq<Record>>, tail: bytes)
    requires AllFit(frames) && Stops(crc, tail) && |EncodeLog(crc, frames) + tail| < TWO_32
    ensures FramesOf(crc, EncodeLog(crc, frames) + tail) == frames
    ensures GoodLength(crc, EncodeLog(crc, frames) + tail) == |EncodeLog(crc, frames)|
  {
    hide FramesOf, GoodLength, Stops, EncodeLog, NoneHidden;
    ShortLogHidesNothing(crc, frames, |tail|);
    ReplayExact(crc, frames, tail);
  }

  /** What is left by a write that did not finish stops replay, wherever it was cut. */
  lemma TornStops(crc: Checksum, recs: seq<Record>, k: nat)
    requires Fits(recs) && k < |Frame(crc, recs)|
    ensures Stops(crc, Frame(crc, recs)[..k])
  {
    hide FrameBody, ParseBody, AllInBounds, LittleEndian, FromLittleEndian;
    var tail := Frame(crc, recs)[..k];
    if k >= FRAME_HEADER {
      FrameParts(crc, recs, []);
      assert (Frame(crc, recs) + [])[..4] == tail[..4];
    }
  }

  function ZeroBytes(n: nat): bytes { seq(n, _ => 0) }

  lemma ZeroCount(body: bytes, rest: bytes)
    requires body == []
    ensures ParseBody(body, rest) == Bad
  {}

  /** So does a tail the file system left as zeros, of any length. */
  lemma ZerosStop(crc: Checksum, n: nat)
    ensures Stops(crc, ZeroBytes(n))
  {
    hide ParseBody;
    var tail := ZeroBytes(n);
    if n >= FRAME_HEADER {
      assert tail[..4] == [0, 0, 0, 0];
      assert FromLittleEndian([0, 0, 0, 0]) == 0 by { ZeroWord(); }
      ZeroCount(tail[FRAME_HEADER..][..0], tail[FRAME_HEADER..][0..]);
    }
  }

  lemma ZeroWord()
    ensures FromLittleEndian([0, 0, 0, 0]) == 0
  {
    assert FromLittleEndian([0]) == 0 && FromLittleEndian([0, 0]) == 0 && FromLittleEndian([0, 0, 0]) == 0;
  }


  // ---- reading and writing one frame ----

  function UpgradeFrame(canon: bytes -> Option<bytes>, recs: seq<Record>): (r: seq<Record>)
    ensures |r| == |recs|
  {
    seq(|recs|, i requires 0 <= i < |recs| => UpgradeRecord(canon, recs[i]))
  }

  method ReadRecords(canon: bytes -> Option<bytes>, src: bytes, n: nat) returns (r: Option<(seq<Record>, bytes)>)
    ensures r == match DecodeRecords(src, n) case Some((rs, rest)) => Some((UpgradeFrame(canon, rs), rest)) case None => None
  {
    hide DecodeRecord, UpgradeRecord;
    var recs: seq<Record> := [];
    ghost var stored: seq<Record> := [];
    var cur := src;
    assert forall rs: seq<Record> :: [] + rs == rs;
    for i := 0 to n
      invariant |stored| == i && recs == UpgradeFrame(canon, stored)
      invariant DecodeRecords(src, n) == match DecodeRecords(cur, n - i) case Some((rs, rest)) => Some((stored + rs, rest)) case None => None
    {
      var next := ReadRecord(canon, cur);
      if next.None? { return None; }
      ghost var (rec, tail) := DecodeRecord(cur).value;
      assert forall rs: seq<Record> :: stored + ([rec] + rs) == (stored + [rec]) + rs;
      recs := recs + [next.value.0];
      stored := stored + [rec];
      cur := next.value.1;
    }
    assert stored + [] == stored;
    return Some((recs, cur));
  }

  method ReadFrame(crc: Checksum, canon: bytes -> Option<bytes>, src: bytes) returns (r: Next)
    ensures r == match NextFrame(crc, src) case Good(recs, rest) => Good(UpgradeFrame(canon, recs), rest) case other => other
  {
    hide DecodeUvarint, DecodeRecords, FromLittleEndian, UpgradeFrame;
    if src == [] { return End; }
    if |src| < FRAME_HEADER { return Bad; }
    var n, sum := FromLittleEndian(src[..4]), FromLittleEndian(src[4..8]);
    if n > MAX_LEN { return Bad; }
    var body := src[FRAME_HEADER..];
    if |body| % TWO_32 < n { return Bad; }
    var rest := body[n..];
    body := body[..n];
    if crc(body) != sum { return Bad; }
    var count := DecodeUvarint(body);
    if count.None? { return Bad; }
    if count.value.0 == 0 || count.value.0 > MAX_LEN { return Bad; }
    var recs := ReadRecords(canon, count.value.1, count.value.0);
    if recs.None? || recs.value.1 != [] { return Bad; }
    return Good(recs.value.0, rest);
  }

  lemma {:induction false} EncodeRecordsSnoc(recs: seq<Record>, r: Record)
    ensures EncodeRecords(recs + [r]) == EncodeRecords(recs) + EncodeRecord(r)
  {
    hide EncodeRecord;
    if recs == [] {
      assert recs + [r] == [r] && [r][1..] == [];
    } else {
      assert (recs + [r])[1..] == recs[1..] + [r];
      EncodeRecordsSnoc(recs[1..], r);
    }
  }

  method AppendRecords(dst: bytes, recs: seq<Record>) returns (out: bytes)
    ensures out == dst + EncodeRecords(recs)
  {
    hide EncodeRecord;
    out := dst;
    for i := 0 to |recs|
      invariant out == dst + EncodeRecords(recs[..i])
    {
      assert recs[..i + 1] == recs[..i] + [recs[i]];
      EncodeRecordsSnoc(recs[..i], recs[i]);
      out := AppendRecord(out, recs[i]);
    }
    assert recs[..|recs|] == recs;
  }

  /** Lays out one frame, its header filled in last. */
  method Encode(crc: Checksum, recs: seq<Record>) returns (frame: bytes)
    ensures frame == Frame(crc, recs)
  {
    hide Uvarint, LittleEndian, EncodeRecords;
    var buf := AppendRecords(Uvarint(|recs|), recs);
    frame := LittleEndian(|buf| % TWO_32, 4) + LittleEndian(crc(buf), 4) + buf;
  }

  // ---- the log file ----

  const MAGIC: bytes := [76, 83, 81, 76, 87, 65, 76, 1]

  /** How much of a write reached the file, and whether it was synced. */
  datatype Reach = Whole | Unsynced | Cut(k: nat)

  datatype LogError = NotReplayed | AlreadyReplayed | IoFailed

  /** The file is its header, whole frames, and a tail that stops replay. */
  ghost predicate Holds(crc: Checksum, file: bytes, held: seq<seq<Record>>, tail: bytes) {
    AllFit(held) && file == MAGIC + (EncodeLog(crc, held) + tail) && Stops(crc, tail)
  }

  lemma HoldsReplay(crc: Checksum, file: bytes, held: seq<seq<Record>>, tail: bytes)
    requires Holds(crc, file, held, tail) && |file| < TWO_32
    ensures |MAGIC| <= |file| && FramesOf(crc, file[|MAGIC|..]) == held
    ensures GoodLength(crc, file[|MAGIC|..]) == |EncodeLog(crc, held)|
    ensures Holds(crc, file[..|MAGIC| + |EncodeLog(crc, held)|], held, [])
  {
    hide FramesOf, GoodLength, EncodeLog, Fits;
    assert file[|MAGIC|..] == EncodeLog(crc, held) + tail;
    ReplayWhole(crc, held, tail);
    assert file[..|MAGIC| + |EncodeLog(crc, held)|] == MAGIC + (EncodeLog(crc, held) + []);
  }

  lemma {:induction false} EncodeLogSnoc(crc: Checksum, frames: seq<seq<Record>>, recs: seq<Record>)
    ensures EncodeLog(crc, frames + [recs]) == EncodeLog(crc, frames) + Frame(crc, recs)
  {
    hide Frame;
    var all := frames + [recs];
    if frames == [] {
      assert all[0] == recs && all[1..] == [];
      assert EncodeLog(crc, all) == Frame(crc, recs) + [];
    } else {
      var rest := frames[1..];
      assert all[0] == frames[0] && all[1..] == rest + [recs];
      EncodeLogSnoc(crc, rest, recs);
      Assoc(Frame(crc, frames[0]), EncodeLog(crc, rest), Frame(crc, recs));
    }
  }

  lemma Assoc(a: bytes, b: bytes, c: bytes)
    ensures a + (b + c) == (a + b) + c
  {}

  /** Appending a whole frame to a file without a tail. */
  lemma HoldsAppend(crc: Checksum, file: bytes, held: seq<seq<Record>>, recs: seq<Record>)
    requires Holds(crc, file, held, []) && Fits(recs)
    ensures Holds(crc, file + Frame(crc, recs), held + [recs], [])
  {
    hide Frame, Fits, EncodeLog, NextFrame;
    var frame := Frame(crc, recs);
    EncodeLogSnoc(crc, held, recs);
    assert file == MAGIC + EncodeLog(crc, held);
    Assoc(MAGIC, EncodeLog(crc, held), frame);
    assert EncodeLog(crc, held + [recs]) + [] == EncodeLog(crc, held + [recs]);
  }

  /** Appending part of one. */
  lemma HoldsCut(crc: Checksum, file: bytes, held: seq<seq<Record>>, recs: seq<Record>, k: nat)
    requires Holds(crc, file, held, []) && Fits(recs) && k < |Frame(crc, recs)|
    ensures Holds(crc, file + Frame(crc, recs)[..k], held, Frame(crc, recs)[..k])
  {
    hide Frame, Fits, EncodeLog, NextFrame;
    TornStops(crc, recs, k);
    assert file == MAGIC + EncodeLog(crc, held);
    Assoc(MAGIC, EncodeLog(crc, held), Frame(crc, recs)[..k]);
  }

  /** The open log. For proofs, `held` is the transactions in the file and `tail` what follows them. */
  class Log {
    const crc: Checksum
    const canon: bytes -> Option<bytes>
    var file: bytes
    var replayed: bool
    var dirty: bool
    var open: bool
    ghost var held: seq<seq<Record>>
    ghost var tail: bytes

    ghost predicate Valid()
      reads this
    {
      Holds(crc, file, held, tail) && (replayed && open ==> tail == [])
    }

    /** Opens what an earlier run left, or starts an empty file with its header. */
    constructor (crc: Checksum, canon: bytes -> Option<bytes>, data: bytes, ghost held: seq<seq<Record>>, ghost tail: bytes)
      requires data != [] ==> Holds(crc, data, held, tail)
      ensures Valid() && this.crc == crc && this.canon == canon && !replayed && open && !dirty
      ensures data == [] ==> file == MAGIC && this.held == []
      ensures data != [] ==> file == data && this.held == held
    {
      this.crc, this.canon := crc, canon;
      replayed, dirty, open := false, false, true;
      if data == [] {
        file := MAGIC;
        this.held, this.tail := [], [];
      } else {
        file := data;
        this.held, this.tail := held, tail;
      }
      new;
      assert MAGIC + (EncodeLog(crc, []) + []) == MAGIC;
    }

    /** Delivers every transaction in the file, oldest first, and cuts off the tail. */
    method Replay() returns (r: Result<seq<seq<Record>>, LogError>)
      requires Valid() && open && |file| < TWO_32
      modifies this
      ensures Valid() && replayed && open && held == old(held) && dirty == old(dirty)
      ensures r.Ok? <==> !old(replayed)
      ensures r.Ok? ==> |r.value| == |held| && forall i :: 0 <= i < |held| ==> r.value[i] == UpgradeFrame(canon, held[i])
    {
      hide NextFrame, Frame, EncodeLog, UpgradeFrame, Fits, Holds;
      if replayed { return Err(AlreadyReplayed); }
      HoldsReplay(crc, file, held, tail);
      var rest := file[|MAGIC|..];
      var good := |MAGIC|;
      var out: seq<seq<Record>> := [];
      while true
        invariant unchanged(this)
        invariant |out| <= |held| && FramesOf(crc, rest) == held[|out|..]
        invariant forall i :: 0 <= i < |out| ==> out[i] == UpgradeFrame(canon, held[i])
        invariant good + GoodLength(crc, rest) == |MAGIC| + |EncodeLog(crc, held)|
        decreases |rest|
      {
        var next := ReadFrame(crc, canon, rest);
        if !next.Good? { break; }
        ghost var stored := NextFrame(crc, rest);
        FrameReads(crc, rest, stored.recs, stored.rest);
        out := out + [next.recs];
        good := good + |rest| - |next.rest|;
        rest := next.rest;
      }
      file := file[..good];
      tail := [];
      replayed := true;
      return Ok(out);
    }

    /** Appends one transaction. An error closes the log; what reached the file stays there. */
    method Write(recs: seq<Record>, reach: Reach) returns (r: Result<(), LogError>)
      requires Valid() && (recs == [] || Fits(recs))
      modifies this
      ensures Valid() && replayed == old(replayed)
      ensures r == if recs == [] then Ok(()) else if !old(replayed) then Err(NotReplayed)
                   else if !old(open) || reach != Whole then Err(IoFailed) else Ok(())
      ensures var landed := recs != [] && old(replayed) && old(open)
                            && (reach.Cut? ==> reach.k >= |Frame(crc, recs)|);
              held == (if landed then old(held) + [recs] else old(held)) && dirty == (old(dirty) || (landed && !reach.Cut?))
      ensures open == (old(open) && (r.Ok? || !old(replayed)))
    {
      hide NextFrame, Frame, EncodeLog, Fits, Holds;
      if recs == [] { return Ok(()); }
      if !replayed { return Err(NotReplayed); }
      if !open { return Err(IoFailed); }
      var frame := Encode(crc, recs);
      var cut := if reach.Cut? && reach.k < |frame| then reach.k else |frame|;
      if cut < |frame| { HoldsCut(crc, file, held, recs, cut); } else { HoldsAppend(crc, file, held, recs); }
      assert cut == |frame| ==> frame[..cut] == frame;
      file := file + frame[..cut];
      if cut < |frame| { tail := frame[..cut]; } else { held := held + [recs]; }
      if !reach.Cut? { dirty := true; }
      if reach != Whole {
        open := false;
        return Err(IoFailed);
      }
      return Ok(());
    }

    /** Replaces the history with one frame holding the present state, if anything was appended. A log
        that an error has closed is still replaced, but the call reports the error. */
    method Checkpoint(recs: seq<Record>) returns (r: Result<(), LogError>)
      requires Valid() && (recs == [] || Fits(recs))
      modifies this
      ensures Valid() && replayed == old(replayed) && open == old(open)
      ensures r == if !old(replayed) then Err(NotReplayed) else if old(dirty) && !old(open) then Err(IoFailed) else Ok(())
      ensures held == if old(replayed && dirty) then (if recs == [] then [] else [recs]) else old(held)
      ensures dirty == (old(dirty) && r.Err?)
    {
      hide NextFrame, Frame, EncodeLog, Fits, Holds;
      if !replayed { return Err(NotReplayed); }
      if !dirty { return Ok(()); }
      EmptyFile(crc);
      file := MAGIC;
      held, tail := [], [];
      if recs != [] {
        var frame := Encode(crc, recs);
        HoldsAppend(crc, file, held, recs);
        file := file + frame;
        held := [] + [recs];
      }
      if !open { return Err(IoFailed); }
      dirty := false;
      return Ok(());
    }
  }

  lemma EmptyFile(crc: Checksum)
    ensures Holds(crc, MAGIC, [], [])
  {
    assert MAGIC + (EncodeLog(crc, []) + []) == MAGIC;
  }

  // ---- whole runs ----

  /** A commit that reaches the file in some part, a checkpoint, a file system that leaves zeros behind,
      and a restart, which replays and truncates. */
  datatype Op = Append(recs: seq<Record>, reach: Reach) | Compact(recs: seq<Record>) | LeaveZeros(n: nat) | Restart

  datatype Disk = Disk(file: bytes, open: bool, dirty: bool)

  function AppendBytes(frame: bytes, reach: Reach): bytes {
    if reach.Cut? && reach.k < |frame| then frame[..reach.k] else frame
  }

  function DiskStep(crc: Checksum, d: Disk, op: Op): Disk {
    match op
    case Append(recs, reach) =>
      if d.open && recs != [] then
        Disk(d.file + AppendBytes(Frame(crc, recs), reach), reach == Whole, d.dirty || !reach.Cut?)
      else d
    case Compact(recs) =>
      if d.dirty then Disk(MAGIC + (if recs == [] then [] else Frame(crc, recs)), d.open, !d.open) else d
    case LeaveZeros(n) => Disk(d.file + ZeroBytes(n), false, d.dirty)
    case Restart =>
      if |d.file| < |MAGIC| then d
      else Disk(d.file[..|MAGIC| + GoodLength(crc, d.file[|MAGIC|..])], true, false)
  }

  /** The transactions the file holds afterwards. A write adds one if its whole frame arrived, acknowledged
      or not; a checkpoint replaces them all by one that describes the present state. */
  function Written(crc: Checksum, d: Disk, held: seq<seq<Record>>, op: Op): seq<seq<Record>> {
    match op
    case Append(recs, reach) =>
      if d.open && recs != [] && (reach.Cut? ==> reach.k >= |Frame(crc, recs)|) then held + [recs] else held
    case Compact(recs) => if !d.dirty then held else if recs == [] then [] else [recs]
    case _ => held
  }

  function DiskRun(crc: Checksum, ops: seq<Op>): (Disk, seq<seq<Record>>) {
    if ops == [] then (Disk(MAGIC, true, false), [])
    else
      var (d, held) := DiskRun(crc, ops[..|ops| - 1]);
      (DiskStep(crc, d, ops[|ops| - 1]), Written(crc, d, held, ops[|ops| - 1]))
  }

  ghost predicate DiskOk(crc: Checksum, d: Disk, held: seq<seq<Record>>) {
    exists tail :: Holds(crc, d.file, held, tail) && (d.open ==> tail == [])
  }

  /** What follows the whole frames of a file. */
  function TailOf(crc: Checksum, file: bytes): bytes {
    if |file| < |MAGIC| then [] else file[|MAGIC| + GoodLength(crc, file[|MAGIC|..])..]
  }

  /** Frames are within bounds, and zeros that fill up a torn frame do not make its checksum right. */
  predicate OpFits(crc: Checksum, d: Disk, op: Op) {
    match op
    case Append(recs, _) => recs == [] || Fits(recs)
    case Compact(recs) => recs == [] || Fits(recs)
    case LeaveZeros(n) => TailOf(crc, d.file) == [] || Stops(crc, TailOf(crc, d.file) + ZeroBytes(n))
    case Restart => true
  }

  lemma DiskStepOk(crc: Checksum, d: Disk, held: seq<seq<Record>>, op: Op)
    requires DiskOk(crc, d, held) && OpFits(crc, d, op) && |d.file| < TWO_32
    ensures DiskOk(crc, DiskStep(crc, d, op), Written(crc, d, held, op))
  {
    hide Frame, EncodeLog, Fits, NextFrame, GoodLength, Holds, TailOf;
    var tail :| Holds(crc, d.file, held, tail) && (d.open ==> tail == []);
    match op
    case Append(recs, reach) =>
      if d.open && recs != [] {
        var frame := Frame(crc, recs);
        if reach.Cut? && reach.k < |frame| { HoldsCut(crc, d.file, held, recs, reach.k); } else { HoldsAppend(crc, d.file, held, recs); }
      }
    case Compact(recs) =>
      if d.dirty {
        EmptyFile(crc);
        if recs != [] {
          HoldsAppend(crc, MAGIC, [], recs);
          assert [] + [recs] == [recs];
        }
        assert MAGIC + [] == MAGIC;
      }
    case LeaveZeros(n) => HoldsZeros(crc, d.file, held, tail, n);
    case Restart =>
      HoldsReplay(crc, d.file, held, tail);
  }

  lemma HoldsZeros(crc: Checksum, file: bytes, held: seq<seq<Record>>, tail: bytes, n: nat)
    requires Holds(crc, file, held, tail) && |file| < TWO_32
    requires TailOf(crc, file) == [] || Stops(crc, TailOf(crc, file) + ZeroBytes(n))
    ensures Holds(crc, file + ZeroBytes(n), held, tail + ZeroBytes(n))
  {
    hide EncodeLog, Fits, NextFrame, GoodLength;
    HoldsReplay(crc, file, held, tail);
    assert TailOf(crc, file) == tail;
    if tail == [] {
      ZerosStop(crc, n);
      assert tail + ZeroBytes(n) == ZeroBytes(n);
    }
    assert file + ZeroBytes(n) == MAGIC + (EncodeLog(crc, held) + (tail + ZeroBytes(n)));
  }

  /** Over any number of commits, torn writes, checkpoints, zero-filled tails and restarts, a replay
      delivers exactly the transactions written whole since the last checkpoint, and what that wrote,
      once and in order; and what follows a restart is appended where the next replay reaches it. */
  lemma {:induction false} RunDelivers(crc: Checksum, ops: seq<Op>)
    requires forall i :: 0 <= i < |ops| ==> OpFits(crc, DiskRun(crc, ops[..i]).0, ops[i])
    requires forall i :: 0 <= i <= |ops| ==> |DiskRun(crc, ops[..i]).0.file| < TWO_32
    ensures var (d, held) := DiskRun(crc, ops);
            DiskOk(crc, d, held) && |MAGIC| <= |d.file| && FramesOf(crc, d.file[|MAGIC|..]) == held
  {
    hide DiskStep, Written, Holds, FramesOf, OpFits;
    var (d, held) := DiskRun(crc, ops);
    if ops == [] {
      EmptyFile(crc);
    } else {
      var before := ops[..|ops| - 1];
      assert forall i :: 0 <= i <= |before| ==> before[..i] == ops[..i];
      RunDelivers(crc, before);
      DiskStepOk(crc, DiskRun(crc, before).0, DiskRun(crc, before).1, ops[|ops| - 1]);
    }
    var tail :| Holds(crc, d.file, held, tail);
    assert ops[..|ops|] == ops;
    HoldsReplay(crc, d.file, held, tail);
  }

  /** A frame as it stands in the file: the length and the checksum of the body, each in four bytes with the
      low one first, then the body, which counts its records. */
  lemma FrameBytes(crc: Checksum)
    requires crc([1, 2, 1, 116, 0xAC, 2]) == 0x0A0B0C0D
    ensures Frame(crc, [Record.Delete(Name([116]), 300)]) == [6, 0, 0, 0, 0x0D, 0x0C, 0x0B, 0x0A, 1, 2, 1, 116, 0xAC, 2]
  {
    hide EncodeRecord, LittleEndian, Uvarint;
    var r := Record.Delete(Name([116]), 300);
    DeleteBytes();
    LowFirst();
    SmallWord(6);
    SmallUvarint(1);
    assert [r][1..] == [] && EncodeRecords([]) == [];
    assert EncodeRecords([r]) == EncodeRecord(r);
    assert FrameBody([r]) == [1, 2, 1, 116, 0xAC, 2];
  }
}
