// The earlier variant's report of the missed set: eight-byte frames in which the index and the
// offset overlap, closed by an END frame.
module Report {
  import opened Bytes
  import opened OnePass

  const END: seq<byte> := [0x45, 0x4E, 0x44, 0]

  /** htons and ntohs. */
  function SwapShort(x: uint32): (y: uint32)
    ensures y < 0x1_0000
  {
    x % 0x100 * 0x100 + x / 0x100 % 0x100
  }

  /** What the two copies of sendMissedSet leave in the zeroed eight bytes. */
  function EncodeMiss(idx: uint32, seqNum: uint64): (frame: seq<byte>) {
    var withIdx := Overwrite([0, 0, 0, 0, 0, 0, 0, 0], 0, Store32(SwapShort(idx)));
    Overwrite(withIdx, 2, Store64(SwapBytes(seqNum))[..6])
  }

  predicate IsEnd(frame: seq<byte>)
    requires |frame| == 8
  {
    frame[0..4] == END
  }

  function DecodeMiss(frame: seq<byte>): (m: Miss)
    requires |frame| == 8
  {
    Miss(SwapShort(Load32(frame[0..4])), SwapBytes(Load32(frame[2..6])))
  }

  /** htons puts the second lowest byte first. */
  lemma ShortOrder(idx: uint32)
    ensures Store32(SwapShort(idx))[0] == idx / 0x100 % 0x100 && Store32(SwapShort(idx))[1] == idx % 0x100
  {
    var low, high := idx % 0x100, idx / 0x100 % 0x100;
    var x: uint32 := low * 0x100 + high;
    assert x % 0x100 == high && x / 0x100 == low;
    FourDigits(x);
  }

  /** The two bytes of the index as htons leaves them. */
  lemma ShortBytes(idx: uint32)
    requires idx < 0x100
    ensures SwapShort(idx) == 0x100 * idx
    ensures Store32(SwapShort(idx))[..2] == [0, idx]
  {
    var x := 0x100 * idx;
    assert x / 0x100 == idx;
    assert ToBytes(x, 4) == [0] + ToBytes(idx, 3);
    assert ToBytes(idx, 3) == [idx] + ToBytes(0, 2);
  }

  /** ntohs reads the index back from those two bytes, whatever the upper two hold. */
  lemma IndexField(idx: uint32, b: seq<byte>)
    requires idx < 0x100 && |b| == 4 && b[..2] == [0, idx]
    ensures SwapShort(Load32(b)) == idx
  {
    var upper := FromBytes(b[1..][1..]);
    assert b[0] == b[..2][0] && b[1] == b[..2][1];
    var x := Load32(b);
    assert x == FromBytes(b) == 0x100 * (idx + 0x100 * upper);
    SwapShortOf(idx, upper);
  }

  lemma SwapShortOf(idx: nat, upper: nat)
    requires idx < 0x100 && 0x100 * (idx + 0x100 * upper) < TWO_32
    ensures SwapShort(0x100 * (idx + 0x100 * upper)) == idx
  {
    var x := idx + 0x100 * upper;
    assert 0x100 * x % 0x100 == 0 && 0x100 * x / 0x100 == x;
    assert x % 0x100 == idx;
  }

  /** A frame decodes to its own index and to its offset modulo 2^32, although the offset's store
      overwrites half of the index's; and it is never taken for END. */
  lemma MissRoundTrip(idx: uint32, seqNum: uint64)
    requires idx < 0x100
    ensures |EncodeMiss(idx, seqNum)| == 8
    ensures DecodeMiss(EncodeMiss(idx, seqNum)) == Miss(idx, seqNum % TWO_32)
    ensures !IsEnd(EncodeMiss(idx, seqNum))
  {
    hide SwapShort, SwapBytes, Store32, Store64, Load32;
    var frame := EncodeMiss(idx, seqNum);
    ShortBytes(idx);
    assert frame[0..4][..2] == Store32(SwapShort(idx))[..2];
    IndexField(idx, frame[0..4]);
    assert frame[0] == frame[0..4][..2][0];
    assert frame[2..6] == Store64(SwapBytes(seqNum))[..4];
    StoreLow(SwapBytes(seqNum));
    LoadStore32(SwapBytes(seqNum));
    SwapTwice(seqNum);
  }

  /** The frame in memory: two bytes of index and four of offset, each highest first, and two zeros. */
  lemma MissBytes(idx: uint32, seqNum: uint64)
    ensures var frame := EncodeMiss(idx, seqNum);
      && |frame| == 8 && frame[0] == idx / 0x100 % 0x100 && frame[1] == idx % 0x100
      && BigEndian(frame[2..6], seqNum) && frame[6..] == [0, 0]
  {
    hide SwapShort, SwapBytes, Store32, Store64, BigEndian;
    var frame, offset := EncodeMiss(idx, seqNum), Store64(SwapBytes(seqNum));
    ShortOrder(idx);
    WideNetworkOrder(seqNum);
    assert frame[2..6] == offset[..4];
    assert frame[6..] == offset[4..][..2];
  }

  /** Which frames the reader would take for END: of the parts there can be, none. */
  lemma TakenForEndIff(idx: uint32, seqNum: uint64)
    ensures |EncodeMiss(idx, seqNum)| == 8
    ensures IsEnd(EncodeMiss(idx, seqNum))
      <==> idx % 0x1_0000 == 0x454E && seqNum / 0x1_0000 % 0x1_0000 == 0x4400
  {
    hide EncodeMiss;
    MissBytes(idx, seqNum);
    var frame, high := EncodeMiss(idx, seqNum), seqNum / 0x1_0000;
    assert frame[2] == frame[2..6][0] && frame[3] == frame[2..6][1];
    assert IsEnd(frame) <==> frame[0] == 0x45 && frame[1] == 0x4E && frame[2] == 0x44 && frame[3] == 0;
    TwoDigits(idx);
    TwoDigits(high);
    assert high / 0x100 == seqNum / 0x100_0000;
  }

  lemma TwoDigits(x: nat)
    ensures x % 0x1_0000 == x / 0x100 % 0x100 * 0x100 + x % 0x100
  {
  }

  // ----- the order of the set -----

  /** Lexicographic on (idx, missedSeq). */
  predicate Before(a: Miss, b: Miss) {
    a.idx < b.idx || (a.idx == b.idx && a.seqNum < b.seqNum)
  }

  predicate Ordered(report: seq<Miss>) {
    forall i, j :: 0 <= i < j < |report| ==> Before(report[i], report[j])
  }

  predicate IsLeast(m: Miss, s: set<Miss>) {
    m in s && forall x :: x in s && x != m ==> Before(m, x)
  }

  lemma LeastExists(s: set<Miss>) returns (m: Miss)
    requires s != {}
    ensures IsLeast(m, s)
    decreases s
  {
    var first: Miss :| first in s;
    var rest := s - {first};
    m := first;
    if rest != {} {
      var m' := LeastExists(rest);
      if Before(m', first) { m := m'; }
      forall x | x in s && x != m ensures Before(m, x) {
        assert x == first || x in rest;
      }
    } else {
      assert s == {first};
    }
  }

  // ----- sender and reader -----

  /** What the NAK loop of the client reads from frame i of the stream up to END. */
  function ReadFrom(stream: seq<seq<byte>>, i: nat): (report: seq<Miss>)
    requires i <= |stream| && forall frame :: frame in stream ==> |frame| == 8
    decreases |stream| - i
  {
    if i == |stream| || IsEnd(stream[i]) then [] else [DecodeMiss(stream[i])] + ReadFrom(stream, i + 1)
  }

  function ReadReport(stream: seq<seq<byte>>): (report: seq<Miss>)
    requires forall frame :: frame in stream ==> |frame| == 8
  {
    ReadFrom(stream, 0)
  }

  lemma {:induction false} ReadAppend(stream: seq<seq<byte>>, frame: seq<byte>, i: nat)
    requires i <= |stream| && |frame| == 8 && forall f :: f in stream ==> |f| == 8 && !IsEnd(f)
    ensures forall f :: f in stream + [frame] ==> |f| == 8
    ensures ReadFrom(stream + [frame], i)
         == ReadFrom(stream, i) + if IsEnd(frame) then [] else [DecodeMiss(frame)]
    decreases |stream| - i
  {
    hide IsEnd, DecodeMiss;
    var longer := stream + [frame];
    if i == |stream| {
      assert longer[i] == frame;
      assert ReadFrom(longer, i + 1) == [];
    } else {
      assert longer[i] == stream[i] && stream[i] in stream;
      ReadAppend(stream, frame, i + 1);
    }
  }

  /** The eight-byte frame and the two bytes that follow it in memory. */
  const MSG_AND_BEYOND: nat := 10

  /** One frame: bzero, then the two overlapping copies in place. The second one is eight bytes at
      position 2, so its last two bytes, always zero, fall behind the frame. */
  method FillFrame(msg: array<byte>, idx: uint32, seqNum: uint64)
    requires msg.Length == MSG_AND_BEYOND
    modifies msg
    ensures msg[..8] == EncodeMiss(idx, seqNum)
    ensures msg[0] == idx / 0x100 % 0x100 && msg[1] == idx % 0x100
    ensures BigEndian(msg[2..6], seqNum) && msg[6..] == [0, 0, 0, 0]
  {
    hide SwapShort, SwapBytes, Store32, Store64, BigEndian;
    Memcpy(msg, 0, [0, 0, 0, 0, 0, 0, 0, 0]);
    Memcpy(msg, 0, Store32(SwapShort(idx)));
    MissBytes(idx, seqNum);
    WideNetworkOrder(seqNum);
    Memcpy(msg, 2, Store64(SwapBytes(seqNum)));
    assert msg[6..] == Store64(SwapBytes(seqNum))[4..];
    assert msg[..8] == EncodeMiss(idx, seqNum);
    assert msg[2..6] == msg[..8][2..6];
  }

  predicate DataFrames(stream: seq<seq<byte>>) {
    forall frame :: frame in stream ==> |frame| == 8 && !IsEnd(frame)
  }

  /** One iteration of the sending loop. */
  method SendMiss(msg: array<byte>, m: Miss, stream: seq<seq<byte>>) returns (stream': seq<seq<byte>>)
    requires msg.Length == MSG_AND_BEYOND && m.idx < 0x100 && m.seqNum < TWO_32 && DataFrames(stream)
    modifies msg
    ensures DataFrames(stream') && |stream'| == |stream| + 1
    ensures ReadReport(stream') == ReadReport(stream) + [m]
  {
    hide EncodeMiss, DecodeMiss, IsEnd, ReadFrom;
    FillFrame(msg, m.idx, m.seqNum);
    MissRoundTrip(m.idx, m.seqNum);
    ReadAppend(stream, msg[..8], 0);
    stream' := stream + [msg[..8]];
  }

  method SendEnd(msg: array<byte>, stream: seq<seq<byte>>) returns (stream': seq<seq<byte>>)
    requires msg.Length == MSG_AND_BEYOND && DataFrames(stream)
    modifies msg
    ensures forall frame :: frame in stream' ==> |frame| == 8
    ensures |stream'| == |stream| + 1 && ReadReport(stream') == ReadReport(stream)
    ensures stream' == stream + [[0x45, 0x4E, 0x44, 0, 0, 0, 0, 0]] && IsEnd(stream'[|stream|])
  {
    Memcpy(msg, 0, END + [0, 0, 0, 0]);
    hide DecodeMiss, IsEnd, ReadFrom;
    var frame := msg[..8];
    assert frame == END + [0, 0, 0, 0] == [0x45, 0x4E, 0x44, 0, 0, 0, 0, 0];
    EndFrame(frame);
    ReadAppend(stream, frame, 0);
    stream' := stream + [frame];
    assert ReadReport(stream') == ReadReport(stream) + [];
  }

  /** `report` lists, in order, the misses that come before everything in `rest`. */
  predicate Split(missed: set<Miss>, report: seq<Miss>, rest: set<Miss>) {
    && rest <= missed && Ordered(report) && |report| + |rest| == |missed|
    && (forall m :: m in report ==> m in missed && m !in rest)
    && (forall m :: m in missed ==> m in report || m in rest)
    && (forall a, b :: a in report && b in rest ==> Before(a, b))
  }

  lemma TakeLeast(missed: set<Miss>, report: seq<Miss>, rest: set<Miss>, m: Miss)
    requires Split(missed, report, rest) && IsLeast(m, rest)
    ensures Split(missed, report + [m], rest - {m})
  {
    var report' := report + [m];
    assert forall x :: x in report' <==> x in report || x == m;
    forall i, j | 0 <= i < j < |report'| ensures Before(report'[i], report'[j]) {
      assert report'[i] in report;
    }
  }

  /** The stream sent for the set reads back as the set, nothing else and nothing twice: part by
      part, and within a part by rising offset. */
  method SendMissedSet(missed: set<Miss>, msg: array<byte>) returns (stream: seq<seq<byte>>)
    requires msg.Length == MSG_AND_BEYOND
    requires forall m :: m in missed ==> m.idx < 0x100 && m.seqNum < TWO_32
    modifies msg
    ensures forall frame :: frame in stream ==> |frame| == 8
    ensures var report := ReadReport(stream); forall i, j :: 0 <= i < j < |report| ==>
      && report[i].idx <= report[j].idx
      && (report[i].idx == report[j].idx ==> report[i].seqNum < report[j].seqNum)
    ensures forall m :: m in ReadReport(stream) <==> m in missed
    ensures |stream| == |missed| + 1 && |ReadReport(stream)| == |missed|
    ensures stream[|missed|] == [0x45, 0x4E, 0x44, 0, 0, 0, 0, 0]
    ensures forall j :: 0 <= j < |stream| ==> (IsEnd(stream[j]) <==> j == |missed|)
  {
    stream := [];
    var rest := missed;
    while rest != {}
      invariant DataFrames(stream)
      invariant |stream| == |ReadReport(stream)|
      invariant Split(missed, ReadReport(stream), rest)
      decreases rest
    {
      ghost var least := LeastExists(rest);
      var m :| IsLeast(m, rest);
      TakeLeast(missed, ReadReport(stream), rest, m);
      stream := SendMiss(msg, m, stream);
      rest := rest - {m};
    }
    stream := SendEnd(msg, stream);
  }

  lemma EndFrame(frame: seq<byte>)
    requires frame == END + [0, 0, 0, 0]
    ensures IsEnd(frame)
  {
    assert frame[0..4] == END;
  }

  lemma NextFrame(stream: seq<seq<byte>>, i: nat, report: seq<Miss>)
    requires i < |stream| && forall frame :: frame in stream ==> |frame| == 8
    ensures if IsEnd(stream[i]) then ReadFrom(stream, i) == []
      else report + ReadFrom(stream, i) == (report + [DecodeMiss(stream[i])]) + ReadFrom(stream, i + 1)
  {
    hide IsEnd, DecodeMiss;
  }

  /** The NAK loop of the client's main. */
  method ReceiveReport(stream: seq<seq<byte>>) returns (report: seq<Miss>, count: nat)
    requires forall frame :: frame in stream ==> |frame| == 8
    ensures report == ReadReport(stream) && count == |report|
  {
    report, count := [], 0;
    var i := 0;
    while i < |stream|
      invariant 0 <= i <= |stream| && count == |report|
      invariant ReadReport(stream) == report + ReadFrom(stream, i)
    {
      hide DecodeMiss, IsEnd, ReadFrom;
      NextFrame(stream, i, report);
      if IsEnd(stream[i]) { break; }
      report := report + [DecodeMiss(stream[i])];
      count := count + 1;
      i := i + 1;
    }
  }
}
