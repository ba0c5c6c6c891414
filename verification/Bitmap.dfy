/** The bitmap scan shared by the frame allocator and the page-table allocator. */
module Bitmap {
  import opened Machine

  const WORD_BITS: nat := 32
  const FULL: Word := 0xFFFF_FFFF

  function Pow2(n: nat): (p: nat)
    ensures p > 0
  {
    if n == 0 then 1 else 2 * Pow2(n - 1)
  }

  /** `w & (1 << j)` */
  predicate TestBit(w: nat, j: nat) {
    if j == 0 then w % 2 == 1 else TestBit(w / 2, j - 1)
  }

  /** `w | (1 << j)` */
  function SetBit(w: nat, j: nat): nat {
    if j == 0 then w - w % 2 + 1 else 2 * SetBit(w / 2, j - 1) + w % 2
  }

  lemma {:induction false} SetBitChangesOneBit(w: nat, j: nat, k: nat)
    ensures TestBit(SetBit(w, j), k) == (TestBit(w, k) || k == j)
  {
    if j > 0 && k > 0 {
      SetBitChangesOneBit(w / 2, j - 1, k - 1);
      assert SetBit(w, j) / 2 == SetBit(w / 2, j - 1);
    }
  }

  /** Bit `j` is worth 2^j, and setting it adds that if it was clear. */
  lemma {:induction false} BitsAreBinary(w: nat, j: nat)
    ensures TestBit(w, j) <==> w / Pow2(j) % 2 == 1
    ensures SetBit(w, j) == if TestBit(w, j) then w else w + Pow2(j)
  {
    if j > 0 {
      BitsAreBinary(w / 2, j - 1);
      HalveFirst(w, Pow2(j - 1));
    }
  }

  lemma HalveFirst(w: nat, p: nat)
    requires p > 0
    ensures w / 2 / p == w / (2 * p)
  {
    var q := w / (2 * p);
    assert w == q * (2 * p) + w % (2 * p);
    assert w / 2 == q * p + w % (2 * p) / 2;
    assert w % (2 * p) / 2 < p;
    assert (q * p + w % (2 * p) / 2) / p == q by {
      Quotient(q, p, w % (2 * p) / 2);
    }
  }

  lemma Quotient(q: nat, p: nat, r: nat)
    requires r < p
    ensures (q * p + r) / p == q
  {
    var d := (q * p + r) / p;
    assert q * p + r == d * p + (q * p + r) % p;
    Multiples(d + 1, q, p);
    Multiples(q + 1, d, p);
  }

  lemma Multiples(a: nat, b: nat, p: nat)
    ensures a <= b ==> a * p <= b * p
  {
  }

  lemma {:induction false} SetBitStaysInRange(w: nat, j: nat, n: nat)
    requires w < Pow2(n) && j < n
    ensures SetBit(w, j) < Pow2(n)
  {
    if j > 0 {
      SetBitStaysInRange(w / 2, j - 1, n - 1);
    }
  }

  /** Every bit of an all-ones word of `n` bits is set ... */
  lemma {:induction false} FullWordHasEveryBit(n: nat, j: nat)
    requires j < n
    ensures TestBit(Pow2(n) - 1, j)
  {
    assert (Pow2(n) - 1) / 2 == Pow2(n - 1) - 1;
    if j > 0 {
      FullWordHasEveryBit(n - 1, j - 1);
    }
  }

  /** ... and any other word of `n` bits has a clear one. */
  lemma {:induction false} OtherWordHasClearBit(w: nat, n: nat) returns (j: nat)
    requires w < Pow2(n) && w != Pow2(n) - 1
    ensures j < n && !TestBit(w, j)
  {
    if w % 2 == 0 {
      j := 0;
    } else {
      j := OtherWordHasClearBit(w / 2, n - 1);
      j := j + 1;
    }
  }

  lemma WordLimitIsPow2()
    ensures Pow2(WORD_BITS) == WORD_LIMIT
  {
    assert Pow2(8) == 0x100;
    assert Pow2(16) == 0x1_0000;
    assert Pow2(24) == 0x100_0000;
  }

  /** The bitmap as flags, one per page: bit `j` of word `i` is flag `32 * i + j`. */
  ghost function Bits(words: seq<Word>): (bits: seq<bool>)
    ensures |bits| == |words| * WORD_BITS
  {
    seq(|words| * WORD_BITS, i requires 0 <= i < |words| * WORD_BITS => TestBit(words[i / WORD_BITS], i % WORD_BITS))
  }

  /** The lowest clear flag. */
  function FirstFree(bits: seq<bool>): (r: Option<nat>)
    ensures r.Some? ==> r.value < |bits| && !bits[r.value] && forall i :: 0 <= i < r.value ==> bits[i]
    ensures r.None? ==> forall i :: 0 <= i < |bits| ==> bits[i]
  {
    FirstFreeFrom(bits, 0)
  }

  function FirstFreeFrom(bits: seq<bool>, from: nat): (r: Option<nat>)
    requires from <= |bits|
    ensures r.Some? ==> from <= r.value < |bits| && !bits[r.value] && forall i :: from <= i < r.value ==> bits[i]
    ensures r.None? ==> forall i :: from <= i < |bits| ==> bits[i]
    decreases |bits| - from
  {
    if from == |bits| then None
    else if !bits[from] then Some(from)
    else FirstFreeFrom(bits, from + 1)
  }

  /** The flags set are exactly the first `k`. */
  ghost predicate IsPrefix(bits: seq<bool>, k: nat) {
    forall i :: 0 <= i < |bits| ==> (bits[i] <==> i < k)
  }

  /** First fit without free: after `k` allocations the next one returns `k`, until all are gone. */
  lemma FirstFitKeepsPrefix(bits: seq<bool>, k: nat)
    requires IsPrefix(bits, k) && k <= |bits|
    ensures FirstFree(bits) == if k < |bits| then Some(k) else None
    ensures k < |bits| ==> IsPrefix(bits[k := true], k + 1)
  {
    var first := FirstFree(bits);
    if k < |bits| {
      assert !bits[k];
    }
    if first.Some? {
      assert !bits[first.value];
    }
  }

  /** The nested scan of both allocators: the index found, or -1. */
  method Scan(bitmap: array<Word>) returns (index: int)
    modifies bitmap
    ensures FirstFree(Bits(old(bitmap[..]))) == if index == -1 then None else Some(index)
    ensures Bits(bitmap[..]) ==
      if index == -1 then Bits(old(bitmap[..])) else Bits(old(bitmap[..]))[index := true]
  {
    index := -1;
    ghost var bits := Bits(bitmap[..]);
    var i := 0;
    while i < bitmap.Length
      invariant 0 <= i <= bitmap.Length
      invariant index == -1 && bitmap[..] == old(bitmap[..])
      invariant forall k :: 0 <= k < i * WORD_BITS ==> bits[k]
    {
      WordLimitIsPow2();
      if bitmap[i] != FULL {
        ghost var clear := OtherWordHasClearBit(bitmap[i], WORD_BITS);
        index := ScanWord(bitmap, i);
        break;
      }
      forall k | i * WORD_BITS <= k < (i + 1) * WORD_BITS ensures bits[k] {
        FullWordHasEveryBit(WORD_BITS, k % WORD_BITS);
      }
      i := i + 1;
    }
  }

  /** The inner loop: word `i` has a clear bit, and the lowest one is set. */
  method ScanWord(bitmap: array<Word>, i: nat) returns (index: int)
    requires i < bitmap.Length
    requires exists j: nat :: j < WORD_BITS && !TestBit(bitmap[i], j)
    requires forall k :: 0 <= k < i * WORD_BITS ==> Bits(bitmap[..])[k]
    modifies bitmap
    ensures 0 <= index && FirstFree(Bits(old(bitmap[..]))) == Some(index)
    ensures Bits(bitmap[..]) == Bits(old(bitmap[..]))[index := true]
  {
    index := -1;
    ghost var bits := Bits(bitmap[..]);
    var j := 0;
    while j < WORD_BITS
      invariant 0 <= j <= WORD_BITS
      invariant bitmap[..] == old(bitmap[..])
      invariant forall k: nat :: k < j ==> TestBit(bitmap[i], k)
    {
      if !TestBit(bitmap[i], j) {
        index := i * WORD_BITS + j;
        WordLimitIsPow2();
        SetBitStaysInRange(bitmap[i], j, WORD_BITS);
        forall k | i * WORD_BITS <= k < index ensures bits[k] {
          assert TestBit(bitmap[i], k - i * WORD_BITS);
          assert k / WORD_BITS == i && k % WORD_BITS == k - i * WORD_BITS;
        }
        assert !bits[index] by {
          assert index / WORD_BITS == i && index % WORD_BITS == j;
        }
        bitmap[i] := SetBit(bitmap[i], j);
        BitsAfterSet(old(bitmap[..]), i, j);
        assert bitmap[..] == old(bitmap[..])[i := SetBit(old(bitmap[i]), j)];
        return;
      }
      j := j + 1;
    }
    assert false;
  }

  /** Setting one bit of one word sets exactly that flag. */
  lemma BitsAfterSet(words: seq<Word>, i: nat, j: nat)
    requires i < |words| && j < WORD_BITS && SetBit(words[i], j) < WORD_LIMIT
    ensures Bits(words[i := SetBit(words[i], j)]) == Bits(words)[i * WORD_BITS + j := true]
  {
    var after := words[i := SetBit(words[i], j)];
    forall k | 0 <= k < |words| * WORD_BITS
      ensures Bits(after)[k] == Bits(words)[i * WORD_BITS + j := true][k]
    {
      SetBitChangesOneBit(words[i], j, k % WORD_BITS);
    }
  }
}
