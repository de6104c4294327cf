// How a file is cut into parts: the part sizes, and the part offsets as written and repaired.
module Splits {
  lemma SharesFit(n: nat, k: nat)
    requires 0 < k
    ensures (n / k) * (k - 1) <= n
  {
    assert n == k * (n / k) + n % k;
    assert k * (n / k) == (n / k) * (k - 1) + n / k;
  }

  function Size(n: nat, k: nat, i: nat): (size: nat)
    requires i < k
  {
    SharesFit(n, k);
    if i == k - 1 then n - (n / k) * (k - 1) else n / k
  }

  /** The sum of the first `i` part sizes: where part i begins. */
  function Prefix(n: nat, k: nat, i: nat): (offset: nat)
    requires i <= k
  {
    if i == 0 then 0 else Prefix(n, k, i - 1) + Size(n, k, i - 1)
  }

  /** The split size that thread `idx` stores: an equal share, and the whole remainder on top for
      the last part. So a part ends where the next one begins, and the last one with the file. */
  method SplitSize(fileSize: nat, splits: nat, idx: nat) returns (size: nat)
    requires idx < splits
    ensures size == fileSize / splits + if idx == splits - 1 then fileSize % splits else 0
    ensures Prefix(fileSize, splits, idx) + size == Prefix(fileSize, splits, idx + 1)
    ensures idx == splits - 1 ==> Prefix(fileSize, splits, idx) + size == fileSize
  {
    LastSize(fileSize, splits);
    SizesSum(fileSize, splits);
    if idx == splits - 1 {
      size := fileSize - (fileSize / splits) * (splits - 1);
    } else {
      size := fileSize / splits;
    }
  }

  /** The offset loop as written adds the thread's own size once for every part before it. */
  method ExactStartAsWritten(splitSize: array<nat>, idx: nat) returns (exactStart: nat)
    requires idx < splitSize.Length
    ensures exactStart == idx * splitSize[idx]
  {
    exactStart := 0;
    var i := 0;
    while i < idx
      invariant 0 <= i <= idx
      invariant exactStart == i * splitSize[idx]
    {
      exactStart := exactStart + splitSize[idx];
      i := i + 1;
    }
  }

  /** Repaired: it adds the sizes of those parts. */
  method ExactStartRepaired(splitSize: array<nat>, fileSize: nat, idx: nat) returns (exactStart: nat)
    requires idx < splitSize.Length
    requires forall i :: 0 <= i < splitSize.Length ==> splitSize[i] == Size(fileSize, splitSize.Length, i)
    ensures exactStart == Prefix(fileSize, splitSize.Length, idx)
  {
    exactStart := 0;
    var i := 0;
    while i < idx
      invariant 0 <= i <= idx
      invariant exactStart == Prefix(fileSize, splitSize.Length, i)
    {
      exactStart := exactStart + splitSize[i];
      i := i + 1;
    }
  }

  /** Where the loop as written makes part i begin. */
  function Written(n: nat, k: nat, i: nat): (offset: nat)
    requires i < k
  {
    i * Size(n, k, i)
  }

  lemma LastSize(n: nat, k: nat)
    requires 0 < k
    ensures Size(n, k, k - 1) == n / k + n % k
  {
    assert n == k * (n / k) + n % k;
    assert k * (n / k) == (n / k) * (k - 1) + n / k;
  }

  lemma {:induction false} PrefixIsMultiple(n: nat, k: nat, i: nat)
    requires i < k
    ensures Prefix(n, k, i) == i * (n / k)
  {
    if i > 0 {
      PrefixIsMultiple(n, k, i - 1);
      assert (i - 1) * (n / k) + n / k == i * (n / k);
    }
  }

  /** The part sizes add up to the file size. */
  lemma SizesSum(n: nat, k: nat)
    requires 0 < k
    ensures Prefix(n, k, k) == n
  {
    PrefixIsMultiple(n, k, k - 1);
    assert (k - 1) * (n / k) == (n / k) * (k - 1);
  }

  lemma {:induction false} PrefixMonotone(n: nat, k: nat, i: nat, j: nat)
    requires i <= j <= k
    ensures Prefix(n, k, i) <= Prefix(n, k, j)
    decreases j
  {
    hide Size;
    if i < j { PrefixMonotone(n, k, i, j - 1); }
  }

  predicate InPart(n: nat, k: nat, i: nat, p: nat)
    requires i < k
  {
    Prefix(n, k, i) <= p < Prefix(n, k, i) + Size(n, k, i)
  }

  ghost predicate InSomePart(n: nat, k: nat, p: nat) {
    exists i: nat :: i < k && InPart(n, k, i, p)
  }

  lemma {:induction false} PartOfByte(n: nat, k: nat, p: nat, j: nat) returns (i: nat)
    requires 0 < j <= k && p < Prefix(n, k, j)
    ensures i < j && InPart(n, k, i, p)
  {
    if Prefix(n, k, j - 1) <= p {
      i := j - 1;
    } else {
      i := PartOfByte(n, k, p, j - 1);
    }
  }

  /** Prefix-sum offsets tile the file: every byte below n lies in exactly one part, and no part
      reaches beyond n. */
  lemma Tiling(n: nat, k: nat)
    requires 0 < k
    ensures forall p: nat :: p < n ==> InSomePart(n, k, p)
    ensures forall i: nat, j: nat, p: nat :: i < k && j < k && InPart(n, k, i, p) && InPart(n, k, j, p) ==> i == j
    ensures forall i: nat, p: nat :: i < k && InPart(n, k, i, p) ==> p < n
  {
    hide Size;
    SizesSum(n, k);
    forall p: nat | p < n ensures InSomePart(n, k, p) {
      var i := PartOfByte(n, k, p, k);
    }
    forall i: nat, p: nat | i < k && InPart(n, k, i, p) ensures p < n {
      PrefixMonotone(n, k, i + 1, k);
    }
    forall i: nat, j: nat, p: nat | i < k && j < k && InPart(n, k, i, p) && InPart(n, k, j, p) ensures i == j {
      if i < j { PrefixMonotone(n, k, i + 1, j); }
      if j < i { PrefixMonotone(n, k, j + 1, i); }
    }
  }

  /** The written offset is the prefix sum for every part but the last, which it displaces by
      (k - 1) * (n % k) bytes. */
  lemma WrittenDisplacement(n: nat, k: nat, i: nat)
    requires i < k
    ensures Written(n, k, i) == Prefix(n, k, i) + if i == k - 1 then (k - 1) * (n % k) else 0
  {
    PrefixIsMultiple(n, k, i);
    LastSize(n, k);
    if i == k - 1 {
      assert i * (n / k + n % k) == i * (n / k) + i * (n % k);
    }
  }

  /** So the parts as written stay inside the file exactly when k divides its size. */
  lemma WrittenFitsIff(n: nat, k: nat)
    requires 1 < k
    ensures (forall i: nat :: i < k ==> Written(n, k, i) + Size(n, k, i) <= n) <==> n % k == 0
    ensures (forall i: nat :: i < k ==> Written(n, k, i) == Prefix(n, k, i)) <==> n % k == 0
  {
    var shift := (k - 1) * (n % k);
    Shift(k, n % k);
    SizesSum(n, k);
    hide Size, Written;
    forall i: nat | i < k
      ensures Written(n, k, i) == Prefix(n, k, i) + if i == k - 1 then shift else 0
      ensures Prefix(n, k, i) + Size(n, k, i) <= n
    {
      WrittenDisplacement(n, k, i);
      PrefixMonotone(n, k, i + 1, k);
    }
    assert Prefix(n, k, k - 1) + Size(n, k, k - 1) == n;
    assert Written(n, k, k - 1) == Prefix(n, k, k - 1) + shift;
  }

  lemma Shift(k: nat, r: nat)
    requires 1 < k
    ensures (k - 1) * r == 0 <==> r == 0
    ensures (k - 1) * r >= 0
  {
  }
}
