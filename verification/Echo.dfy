// Client to server, role flip, server to client: what comes back.
module Echo {
  import opened Bytes
  import opened Slots
  import opened Receiving
  import opened Splits
  import opened System
  import opened Transfer

  datatype OffsetRule = WrittenOffsets | PrefixOffsets

  /** Bytes of memory from the start of the file that the parts reach. */
  function Extent(n: nat, k: nat, rule: OffsetRule): nat
    requires 0 < k
  {
    if rule == PrefixOffsets then n else n + (k - 1) * (n % k)
  }

  /** Where part i begins. */
  function Offset(n: nat, k: nat, rule: OffsetRule, i: nat): (offset: nat)
    requires i < k
  {
    if rule == PrefixOffsets then Prefix(n, k, i) else Written(n, k, i)
  }

  /** One direction of a transfer of the first n bytes of `memory`. */
  function Direction(d: pos, n: nat, k: nat, rule: OffsetRule, gap: GapGuard, counting: Counting,
                     memory: seq<byte>): Plan
    requires 0 < k
  {
    Plan(d, n, memory, seq(k, i requires 0 <= i < k => Size(n, k, i)),
         seq(k, i requires 0 <= i < k => Offset(n, k, rule, i)), gap, counting)
  }

  lemma OffsetShift(n: nat, k: nat, rule: OffsetRule, i: nat)
    requires i < k
    ensures Offset(n, k, rule, i)
         == Prefix(n, k, i) + if rule == WrittenOffsets && i == k - 1 then (k - 1) * (n % k) else 0
  {
    WrittenDisplacement(n, k, i);
  }

  lemma PartFits(n: nat, k: nat, rule: OffsetRule, i: nat)
    requires i < k
    ensures Size(n, k, i) <= n && Offset(n, k, rule, i) + Size(n, k, i) <= Extent(n, k, rule)
  {
    var shift := (k - 1) * (n % k);
    ShiftNonnegative(n, k);
    OffsetShift(n, k, rule, i);
    hide Offset, Size;
    SizesSum(n, k);
    PrefixMonotone(n, k, 0, i);
    PrefixMonotone(n, k, i + 1, k);
  }

  lemma DirectionValid(d: pos, n: nat, k: nat, rule: OffsetRule, gap: GapGuard, counting: Counting, memory: seq<byte>)
    requires 0 < k && Extent(n, k, rule) <= |memory|
    ensures Direction(d, n, k, rule, gap, counting, memory).Valid()
  {
    hide Size, Offset, Extent;
    assert n <= Extent(n, k, rule) by { ExtentAtLeast(n, k, rule); }
    forall i: nat | i < k
      ensures Size(n, k, i) <= n && Offset(n, k, rule, i) + Size(n, k, i) <= |memory|
    {
      PartFits(n, k, rule, i);
    }
  }

  lemma ExtentAtLeast(n: nat, k: nat, rule: OffsetRule)
    requires 0 < k
    ensures n <= Extent(n, k, rule)
  {
    if k > 1 { Shift(k, n % k); }
  }

  lemma {:induction false} TotalIsPrefix(n: nat, k: nat, j: nat)
    requires j <= k
    ensures Total(seq(j, i requires 0 <= i < j => Size(n, k, i))) == Prefix(n, k, j)
  {
    var sizes := seq(j, i requires 0 <= i < j => Size(n, k, i));
    hide Size;
    if j > 0 {
      TotalIsPrefix(n, k, j - 1);
      assert sizes[..j - 1] == seq(j - 1, i requires 0 <= i < j - 1 => Size(n, k, i));
    }
  }

  /** The bytes that no part reaches with the written offsets. */
  predicate Hole(n: nat, k: nat, rule: OffsetRule, p: nat)
    requires 0 < k
  {
    rule == WrittenOffsets && Prefix(n, k, k - 1) <= p < Prefix(n, k, k - 1) + (k - 1) * (n % k)
  }

  /** The part that byte p lies in, and that it comes before the last one or is it. */
  lemma PartAt(n: nat, k: nat, p: nat) returns (i: nat)
    requires 0 < k && p < n
    ensures i < k && Prefix(n, k, i) <= p
    ensures i < k - 1 ==> p < Prefix(n, k, i) + Size(n, k, i) <= Prefix(n, k, k - 1)
    ensures i == k - 1 ==> p < Prefix(n, k, i) + Size(n, k, i)
  {
    hide Size;
    SizesSum(n, k);
    i := PartOfByte(n, k, p, k);
    if i < k - 1 { PrefixMonotone(n, k, i + 1, k - 1); }
  }

  lemma PartsBeforeLast(n: nat, k: nat, j: nat)
    requires j < k - 1
    ensures Prefix(n, k, j) + Size(n, k, j) <= Prefix(n, k, k - 1)
  {
    hide Size;
    PrefixMonotone(n, k, j + 1, k - 1);
  }

  lemma ShiftedRegion(lay: Layout, n: nat, k: nat, shift: nat, p: nat)
    requires 0 < k && lay.K() == k && p < n
    requires forall i: nat :: i < k ==> lay.sizes[i] == Size(n, k, i)
    requires forall i: nat :: i < k ==> lay.offs[i] == Prefix(n, k, i) + if i == k - 1 then shift else 0
    ensures InRegion(lay, p) <==> !(Prefix(n, k, k - 1) <= p < Prefix(n, k, k - 1) + shift)
  {
    hide Size, Prefix;
    var i := PartAt(n, k, p);
    var last: nat := k - 1;
    var from, to := lay.offs[last], lay.offs[last] + lay.sizes[last];
    if i < last || p >= from {
      assert lay.offs[i] <= p < lay.offs[i] + lay.sizes[i];
    } else if InRegion(lay, p) {
      var j: nat :| j < k && lay.offs[j] <= p < lay.offs[j] + lay.sizes[j];
      if j < last { PartsBeforeLast(n, k, j); }
    }
  }

  lemma RegionIff(lay: Layout, n: nat, k: nat, rule: OffsetRule, p: nat)
    requires 0 < k && lay.K() == k && p < n
    requires forall i: nat :: i < k ==> lay.sizes[i] == Size(n, k, i) && lay.offs[i] == Offset(n, k, rule, i)
    ensures InRegion(lay, p) <==> !Hole(n, k, rule, p)
  {
    ShiftNonnegative(n, k);
    var shift := if rule == WrittenOffsets then (k - 1) * (n % k) else 0;
    hide Offset, Size, Prefix, InRegion;
    forall i: nat | i < k
      ensures lay.offs[i] == Prefix(n, k, i) + if i == k - 1 then shift else 0
    {
      OffsetShift(n, k, rule, i);
    }
    ShiftedRegion(lay, n, k, shift, p);
  }

  lemma ShiftNonnegative(n: nat, k: nat)
    requires 0 < k
    ensures (k - 1) * (n % k) >= 0
  {
    if k > 1 { Shift(k, n % k); }
  }

  /** What one direction leaves on disk and in the buffer when it has completed. */
  lemma OneWay(d: pos, n: nat, k: nat, rule: OffsetRule, gap: GapGuard, counting: Counting,
               memory: seq<byte>, s: System)
    requires 0 < k && Extent(n, k, rule) <= |memory|
    requires Completed(Direction(d, n, k, rule, gap, counting, memory), s)
    ensures |s.disk| == n && s.totalRecvSize == n && |s.buf| == |memory|
    ensures forall p: nat :: p < n ==> s.disk[p] == s.buf[p] == if Hole(n, k, rule, p) then 0 else memory[p]
  {
    var lay := Direction(d, n, k, rule, gap, counting, memory);
    TotalIsPrefix(n, k, k);
    SizesSum(n, k);
    ExtentAtLeast(n, k, rule);
    hide Completed, InRegion, Size, Offset, Hole, Extent;
    WrittenFile(lay, s);
    forall p: nat | p < n ensures InRegion(lay, p) <==> !Hole(n, k, rule, p) {
      RegionIff(lay, n, k, rule, p);
    }
  }

  /** The transfer to the server and back, completed without counting a repeat in either
      direction, returns the file with the bytes no part reaches set to zero. */
  lemma ThereAndBack(d: pos, n: nat, k: nat, rule: OffsetRule, gap: GapGuard, counting: Counting,
                     memory: seq<byte>, server: System, client: System)
    requires 0 < k && Extent(n, k, rule) <= |memory|
    requires Completed(Direction(d, n, k, rule, gap, counting, memory), server)
    requires Completed(Direction(d, n, k, rule, gap, counting, server.buf), client)
    ensures |client.disk| == n
    ensures forall p: nat :: p < n ==> client.disk[p] == if Hole(n, k, rule, p) then 0 else memory[p]
  {
    hide Completed, Hole, Direction;
    OneWay(d, n, k, rule, gap, counting, memory, server);
    OneWay(d, n, k, rule, gap, counting, server.buf, client);
  }

  /** With prefix-sum offsets the returned file, and the server's copy, equal the original. */
  lemma EchoRoundTrip(d: pos, n: nat, k: nat, gap: GapGuard, counting: Counting,
                      memory: seq<byte>, server: System, client: System)
    requires 0 < k && n <= |memory|
    requires Completed(Direction(d, n, k, PrefixOffsets, gap, counting, memory), server)
    requires Completed(Direction(d, n, k, PrefixOffsets, gap, counting, server.buf), client)
    ensures server.disk == memory[..n] && client.disk == memory[..n]
  {
    hide Completed, Direction;
    OneWay(d, n, k, PrefixOffsets, gap, counting, memory, server);
    ThereAndBack(d, n, k, PrefixOffsets, gap, counting, memory, server, client);
  }

  /** With the offsets as written it equals the original if and only if the bytes that the last
      part's displacement leaves out are zero; there are none when k divides the file size. */
  lemma WrittenEchoIff(d: pos, n: nat, k: nat, gap: GapGuard, counting: Counting,
                       memory: seq<byte>, server: System, client: System)
    requires 0 < k && Extent(n, k, WrittenOffsets) <= |memory| && n <= |memory|
    requires Completed(Direction(d, n, k, WrittenOffsets, gap, counting, memory), server)
    requires Completed(Direction(d, n, k, WrittenOffsets, gap, counting, server.buf), client)
    ensures client.disk == memory[..n] <==>
      forall p: nat :: p < n && (k - 1) * (n / k) <= p < (k - 1) * (n / k) + (k - 1) * (n % k) ==> memory[p] == 0
    ensures n % k == 0 ==> client.disk == memory[..n]
  {
    PrefixIsMultiple(n, k, k - 1);
    hide Completed, Direction, Extent;
    ThereAndBack(d, n, k, WrittenOffsets, gap, counting, memory, server, client);
    if client.disk == memory[..n] {
      forall p: nat | p < n && Hole(n, k, WrittenOffsets, p) ensures memory[p] == 0 {
        assert client.disk[p] == memory[..n][p];
      }
    }
  }
}
