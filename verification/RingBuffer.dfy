/** A ring buffer that keeps the last items added, and answers membership. */
module RingBuffer {
  import opened Basics

  /** Where the write index stands after `count` additions. */
  function Slot(count: nat, size: nat): (at: nat)
    requires size > 0
    ensures at < size
  {
    if count == 0 then 0
    else if Slot(count - 1, size) + 1 >= size then 0
    else Slot(count - 1, size) + 1
  }

  /** The storage after a sequence of additions: it grows until it is full, and is
      overwritten at the write index from then on. */
  ghost function Laid<T>(added: seq<T>, size: nat): (storage: seq<T>)
    requires size > 0
    ensures |storage| == if |added| < size then |added| else size
  {
    if added == [] then []
    else
      var before, x := added[..|added| - 1], added[|added| - 1];
      if |before| < size then Laid(before, size) + [x]
      else Laid(before, size)[Slot(|before|, size) := x]
  }

  // ---- the index is the count modulo the size ---------------------------

  lemma LessBySize(p: nat, q: nat, size: nat)
    requires p < q
    ensures p * size + size <= q * size
  {
    assert q * size == p * size + size + (q - p - 1) * size;
    assert (q - p - 1) * size >= 0;
  }

  lemma RemainderIsUnique(n: nat, q: nat, r: nat, size: nat)
    requires r < size && n == q * size + r
    ensures n % size == r
  {
    var p := n / size;
    assert n == p * size + n % size;
    if p < q {
      LessBySize(p, q, size);
    } else if q < p {
      LessBySize(q, p, size);
    }
  }

  lemma {:induction false} SlotLeavesRounds(count: nat, size: nat) returns (rounds: nat)
    requires size > 0
    ensures count == rounds * size + Slot(count, size)
  {
    rounds := 0;
    if count > 0 {
      rounds := SlotLeavesRounds(count - 1, size);
      if Slot(count - 1, size) + 1 >= size {
        assert (rounds + 1) * size == rounds * size + size;
        rounds := rounds + 1;
      }
    }
  }

  lemma SlotIsRemainder(count: nat, size: nat)
    requires size > 0
    ensures Slot(count, size) == count % size
  {
    var rounds := SlotLeavesRounds(count, size);
    RemainderIsUnique(count, rounds, Slot(count, size), size);
  }

  lemma {:induction false} SlotOfAPart(count: nat, size: nat)
    requires count < size
    ensures Slot(count, size) == count
  {
    if count > 0 {
      SlotOfAPart(count - 1, size);
    }
  }

  // ---- the storage is the end of the history ----------------------------

  function Rotated<T>(q: seq<T>, at: nat): seq<T>
    requires at <= |q|
  {
    q[|q| - at..] + q[..|q| - at]
  }

  /** Dropping the oldest item and appending a new one turns the rotation by one. */
  lemma RotationTurns<T>(q: seq<T>, at: nat, x: T)
    requires at + 1 < |q|
    ensures Rotated(q[1..] + [x], at + 1) == Rotated(q, at)[at := x]
  {
    var cut, next := |q| - at, q[1..] + [x];
    assert next[cut - 1..] == q[cut..] + [x];
    assert next[..cut - 1] == q[1..cut] == q[..cut][1..];
    assert Rotated(q, at)[at := x] == q[cut..] + [x] + q[..cut][1..];
  }

  lemma RotationCloses<T>(q: seq<T>, x: T)
    requires q != []
    ensures Rotated(q[1..] + [x], 0) == Rotated(q, |q| - 1)[|q| - 1 := x]
  {
    assert Rotated(q[1..] + [x], 0) == q[1..] + [x];
    assert Rotated(q, |q| - 1)[|q| - 1 := x] == q[1..] + [x];
  }

  lemma StorageFills<T>(added: seq<T>, size: nat)
    requires 0 < size == |added|
    ensures Laid(added, size) == added && Slot(size, size) == 0
  {
    var n := size - 1;
    PartStorageIsTheHistory(added[..n], size);
    SlotOfAPart(n, size);
    assert added[..n] + [added[n]] == added;
  }

  lemma StorageTurns<T>(last: seq<T>, at: nat, x: T)
    requires at < |last|
    ensures Rotated(last, at)[at := x] == Rotated(last[1..] + [x], if at + 1 >= |last| then 0 else at + 1)
  {
    if at + 1 < |last| {
      RotationTurns(last, at, x);
    } else {
      RotationCloses(last, x);
    }
  }

  lemma LaidExtends<T>(added: seq<T>, size: nat, x: T)
    requires size > 0
    ensures Laid(added + [x], size) ==
            if |added| < size then Laid(added, size) + [x] else Laid(added, size)[Slot(|added|, size) := x]
    ensures |added| < size ==> Slot(|added|, size) == |added|
  {
    assert (added + [x])[..|added|] == added;
    if |added| < size {
      SlotOfAPart(|added|, size);
    }
  }

  lemma LastShifts<T>(added: seq<T>, size: nat)
    requires 0 < size < |added|
    ensures var n := |added| - 1;
            LastN(added, size) == LastN(added[..n], size)[1..] + [added[n]]
  {
  }

  /** A full storage is the last items, rotated to the write index. */
  lemma {:induction false} FullStorageIsRotated<T>(added: seq<T>, size: nat) returns (last: seq<T>, at: nat)
    requires 0 < size <= |added|
    ensures last == LastN(added, size) && |last| == size && at == Slot(|added|, size)
    ensures Laid(added, size) == Rotated(last, at)
    decreases |added|
  {
    if |added| == size {
      StorageFills(added, size);
      last, at := added, 0;
      assert added == Rotated(added, 0);
    } else {
      var n := |added| - 1;
      var x := added[n];
      var last0, at0 := FullStorageIsRotated(added[..n], size);
      assert Laid(added, size) == Laid(added[..n], size)[at0 := x];
      LastShifts(added, size);
      StorageTurns(last0, at0, x);
      last, at := last0[1..] + [x], if at0 + 1 >= size then 0 else at0 + 1;
    }
  }

  lemma {:induction false} PartStorageIsTheHistory<T>(added: seq<T>, size: nat)
    requires |added| < size
    ensures Laid(added, size) == added
  {
    if added != [] {
      PartStorageIsTheHistory(added[..|added| - 1], size);
      assert added == added[..|added| - 1] + [added[|added| - 1]];
    }
  }

  lemma RotationRearranges<T>(q: seq<T>, at: nat)
    requires at <= |q|
    ensures multiset(Rotated(q, at)) == multiset(q)
  {
    assert q == q[..|q| - at] + q[|q| - at..];
  }

  /** However many items were added, the storage is a rearrangement of the last ones. */
  lemma StorageIsTheLast<T>(added: seq<T>, size: nat)
    requires size > 0
    ensures multiset(Laid(added, size)) == multiset(LastN(added, size))
    ensures forall x :: x in Laid(added, size) <==> x in LastN(added, size)
  {
    if |added| < size {
      PartStorageIsTheHistory(added, size);
    } else {
      var last, at := FullStorageIsRotated(added, size);
      RotationRearranges(last, at);
    }
    forall x
      ensures x in Laid(added, size) <==> x in LastN(added, size)
    {
      assert x in Laid(added, size) <==> x in multiset(Laid(added, size));
      assert x in LastN(added, size) <==> x in multiset(LastN(added, size));
    }
  }

  // ---- the buffer -------------------------------------------------------

  class RingBuffer<T(0, ==)> {
    /** `storage[..len]` is the slice in use; its capacity is the length of the array. */
    var storage: array<T>
    var len: nat
    var currentWriteIndex: nat
    ghost var added: seq<T>

    /** The slice in use is `q`. */
    ghost predicate Holds(q: seq<T>)
      reads this, storage
    {
      len == |q| <= storage.Length && forall i :: 0 <= i < len ==> storage[i] == q[i]
    }

    ghost predicate Valid()
      reads this, storage
    {
      && len <= storage.Length
      && if storage.Length == 0 then currentWriteIndex == 0 && added == []
         else currentWriteIndex == Slot(|added|, storage.Length) && Holds(Laid(added, storage.Length))
    }

    constructor (size: nat)
      ensures Valid() && fresh(storage)
      ensures storage.Length == size && added == []
    {
      storage := new T[size];
      len, currentWriteIndex, added := 0, 0, [];
    }

    /** A buffer of no capacity panics, which is `!ok` here. */
    method Add(item: T) returns (ok: bool)
      requires Valid()
      modifies this, storage
      ensures Valid() && storage == old(storage)
      ensures ok <==> storage.Length > 0
      ensures added == if ok then old(added) + [item] else old(added)
    {
      ok := currentWriteIndex < storage.Length;
      if !ok {
        return;
      }
      LaidExtends(added, storage.Length, item);
      if currentWriteIndex >= len {
        len := len + 1;
      }
      storage[currentWriteIndex] := item;
      currentWriteIndex := currentWriteIndex + 1;
      if currentWriteIndex >= storage.Length {
        currentWriteIndex := 0;
      }
      added := added + [item];
    }

    method Contains(item: T) returns (found: bool)
      requires Valid()
      ensures found <==> item in LastN(added, storage.Length)
    {
      if storage.Length > 0 {
        StorageIsTheLast(added, storage.Length);
        assert storage[..len] == Laid(added, storage.Length);
      }
      for i := 0 to len
        invariant item !in storage[..i]
      {
        if storage[i] == item {
          return true;
        }
      }
      return false;
    }
  }

  /** What a valid buffer holds, and where it writes next. */
  lemma BufferHoldsTheLast<T(0)>(buffer: RingBuffer<T>)
    requires buffer.Valid() && buffer.storage.Length > 0
    ensures multiset(buffer.storage[..buffer.len]) == multiset(LastN(buffer.added, buffer.storage.Length))
    ensures buffer.currentWriteIndex == |buffer.added| % buffer.storage.Length
  {
    StorageIsTheLast(buffer.added, buffer.storage.Length);
    assert buffer.storage[..buffer.len] == Laid(buffer.added, buffer.storage.Length);
    SlotIsRemainder(|buffer.added|, buffer.storage.Length);
  }

  /** A new buffer after any sequence of additions. */
  method AddAll<T(0, ==)>(items: seq<T>, size: nat) returns (buffer: RingBuffer<T>)
    requires size > 0
    ensures buffer.Valid() && buffer.added == items && buffer.storage.Length == size
  {
    buffer := new RingBuffer<T>(size);
    for i := 0 to |items|
      invariant fresh(buffer) && fresh(buffer.storage)
      invariant buffer.Valid() && buffer.added == items[..i] && buffer.storage.Length == size
    {
      var _ := buffer.Add(items[i]);
      assert items[..i + 1] == items[..i] + [items[i]];
    }
    assert items[..|items|] == items;
  }
}
