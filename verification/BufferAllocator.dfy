/** One contiguous block carved into aligned buffers (xla/cpu_function_runtime.cc). */
module BufferAllocator {

  const WORD: int := 0x1_0000_0000_0000_0000  // 2^64
  const ALIGN: int := 64

  datatype Kind = Constant | TempBuffer | Parameter | OnStackBuffer

  /** Sizes are 62-bit fields; a parameter number below zero means "not an entry parameter". */
  datatype BufferInfo = BufferInfo(kind: Kind, size: nat, entryParamNumber: int) {
    ghost predicate Valid() { size < 0x4000_0000_0000_0000 }

    predicate ShouldAllocate(entryParams: bool) {
      kind == TempBuffer || (kind == Parameter && entryParamNumber >= 0 && entryParams)
    }
  }

  /** `align_to` in 64-bit arithmetic: for n == 0 the subtraction wraps around and the final
      product wraps back to 0. */
  function AlignTo(n: int, align: int): int
    requires 0 <= n < WORD && 0 < align < WORD
  {
    var q := ((n - 1) % WORD) / align;
    (((q + 1) % WORD) * align) % WORD
  }

  /** Unbounded meaning: the least multiple of 64 that is at least `n`. */
  function RoundedUp(n: nat): (r: nat)
    ensures r % 64 == 0 && n <= r < n + 64
  {
    (n + ALIGN - 1) / ALIGN * ALIGN
  }

  /** The machine result is the true one whenever that fits in a word. */
  lemma AlignToExact(n: nat)
    requires n < WORD
    ensures AlignTo(n, ALIGN) == RoundedUp(n) % WORD
    ensures RoundedUp(n) < WORD ==> AlignTo(n, ALIGN) == RoundedUp(n)
  {
    if n > 0 {
      assert (n - 1) % WORD == n - 1;
      assert (n - 1) / ALIGN + 1 == (n + ALIGN - 1) / ALIGN;
    } else {
      assert (0 - 1) % WORD == WORD - 1;
      assert (WORD - 1) / ALIGN + 1 == WORD / ALIGN;
    }
  }

  /** Bytes taken by the first `n` buffers, without wrap-around. */
  function Offset(infos: seq<BufferInfo>, n: nat, entryParams: bool): nat
    requires n <= |infos|
  {
    if n == 0 then 0
    else Offset(infos, n - 1, entryParams)
         + if infos[n - 1].ShouldAllocate(entryParams) then RoundedUp(infos[n - 1].size) else 0
  }

  lemma {:induction false} OffsetMonotone(infos: seq<BufferInfo>, i: nat, j: nat, entryParams: bool)
    requires i <= j <= |infos|
    ensures Offset(infos, i, entryParams) <= Offset(infos, j, entryParams)
    decreases j - i
  {
    if i < j { OffsetMonotone(infos, i, j - 1, entryParams); }
  }

  lemma OffsetAligned(infos: seq<BufferInfo>, n: nat, entryParams: bool)
    requires n <= |infos|
    ensures Offset(infos, n, entryParams) % ALIGN == 0
  {}

  /** Adding one aligned buffer does not wrap while the total fits. */
  lemma StepFits(infos: seq<BufferInfo>, i: nat, entryParams: bool)
    requires i < |infos| && infos[i].ShouldAllocate(entryParams) && infos[i].size < WORD
    requires Offset(infos, |infos|, entryParams) < WORD
    ensures AlignTo(infos[i].size, ALIGN) == RoundedUp(infos[i].size)
    ensures Offset(infos, i + 1, entryParams) == Offset(infos, i, entryParams) + AlignTo(infos[i].size, ALIGN) < WORD
  {
    OffsetMonotone(infos, i + 1, |infos|, entryParams);
    AlignToExact(infos[i].size);
  }

  /** ... nor does advancing a position inside a block that ends below 2^64. */
  lemma PositionStep(infos: seq<BufferInfo>, i: nat, entryParams: bool, base: nat)
    requires i < |infos| && infos[i].ShouldAllocate(entryParams) && infos[i].size < WORD
    requires base + Offset(infos, |infos|, entryParams) < WORD
    ensures (base + Offset(infos, i, entryParams) + AlignTo(infos[i].size, ALIGN)) % WORD == base + Offset(infos, i + 1, entryParams)
  {
    StepFits(infos, i, entryParams);
    OffsetMonotone(infos, i + 1, |infos|, entryParams);
  }

  method AlignedBufferBytes(infos: seq<BufferInfo>, entryParams: bool) returns (total: int)
    requires forall i :: 0 <= i < |infos| ==> infos[i].Valid()
    requires Offset(infos, |infos|, entryParams) < WORD
    ensures total == Offset(infos, |infos|, entryParams)
  {
    total := 0;
    for i := 0 to |infos|
      invariant total == Offset(infos, i, entryParams)
    {
      if infos[i].ShouldAllocate(entryParams) {
        StepFits(infos, i, entryParams);
        total := (total + AlignTo(infos[i].size, ALIGN)) % WORD;
      }
    }
  }

  const NULL: int := 0

  /** The buffers that get a place in the block: temporaries always, parameters of the entry
      computation if asked for. */
  ghost function Allocated(infos: seq<BufferInfo>, entryParams: bool): set<int> {
    set i | 0 <= i < |infos|
            && (infos[i].kind.TempBuffer? || (infos[i].kind.Parameter? && infos[i].entryParamNumber >= 0 && entryParams))
  }

  /** What callers rely on: unallocated slots are null; allocated ranges lie inside the block
      of `total` bytes at `base`, are aligned if the block is, and do not overlap. An allocated
      slot may be null as well: see `NullSlots`. */
  ghost predicate Placed(infos: seq<BufferInfo>, entryParams: bool, base: int, total: int, bufs: seq<int>) {
    var a := Allocated(infos, entryParams);
    && |bufs| == |infos|
    && (forall i :: 0 <= i < |bufs| && i !in a ==> bufs[i] == NULL)
    && (forall i :: i in a ==> base <= bufs[i] && bufs[i] + infos[i].size <= base + total)
    && (forall i :: i in a && base % 64 == 0 ==> bufs[i] % 64 == 0)
    && (forall i, j :: i in a && j in a && i < j ==> bufs[i] + infos[i].size <= bufs[j])
  }

  /** Nothing allocated lies between `i` and `j`. */
  ghost predicate Neighbours(a: set<int>, i: int, j: int) { i < j && forall k :: i < k < j ==> k !in a }

  /** No space is wasted beyond alignment: the block starts with the first range, each range is
      followed by the next and the last by the end. */
  ghost predicate Tight(infos: seq<BufferInfo>, entryParams: bool, base: int, total: int, bufs: seq<int>) {
    var a := Allocated(infos, entryParams);
    && |bufs| == |infos|
    && (a == {} ==> total == 0)
    && (forall j :: j in a && Neighbours(a, -1, j) ==> bufs[j] == base)
    && (forall i, j :: i in a && j in a && Neighbours(a, i, j) ==> bufs[j] < bufs[i] + infos[i].size + 64)
    && (forall i :: i in a && Neighbours(a, i, |infos|) ==> base + total < bufs[i] + infos[i].size + 64)
  }

  /** The address stored in slot `i`. */
  function SlotAt(infos: seq<BufferInfo>, entryParams: bool, base: int, i: nat): int
    requires i < |infos|
  {
    if infos[i].ShouldAllocate(entryParams) then base + Offset(infos, i, entryParams) else NULL
  }

  lemma AllocatedIs(infos: seq<BufferInfo>, entryParams: bool, i: int)
    ensures i in Allocated(infos, entryParams) <==> 0 <= i < |infos| && infos[i].ShouldAllocate(entryParams)
  {}

  lemma OffsetsArePlaced(infos: seq<BufferInfo>, entryParams: bool, base: int, bufs: seq<int>)
    requires |bufs| == |infos| && forall i :: 0 <= i < |bufs| ==> bufs[i] == SlotAt(infos, entryParams, base, i)
    ensures Placed(infos, entryParams, base, Offset(infos, |infos|, entryParams), bufs)
  {
    var a := Allocated(infos, entryParams);
    forall i | i in a
      ensures base <= bufs[i] && bufs[i] + infos[i].size <= base + Offset(infos, i + 1, entryParams) <= base + Offset(infos, |infos|, entryParams)
      ensures base % 64 == 0 ==> bufs[i] % 64 == 0
    {
      AllocatedIs(infos, entryParams, i);
      OffsetMonotone(infos, i + 1, |infos|, entryParams);
      OffsetAligned(infos, i, entryParams);
    }
    forall i, j | i in a && j in a && i < j ensures bufs[i] + infos[i].size <= bufs[j] {
      AllocatedIs(infos, entryParams, i);
      AllocatedIs(infos, entryParams, j);
      OffsetMonotone(infos, i + 1, j, entryParams);
    }
  }

  /** Slots that are not allocated take no space. */
  lemma {:induction false} OffsetSkips(infos: seq<BufferInfo>, i: nat, j: nat, entryParams: bool)
    requires i <= j <= |infos| && forall k :: i <= k < j ==> k !in Allocated(infos, entryParams)
    ensures Offset(infos, j, entryParams) == Offset(infos, i, entryParams)
    decreases j - i
  {
    if i < j {
      AllocatedIs(infos, entryParams, j - 1);
      OffsetSkips(infos, i, j - 1, entryParams);
    }
  }

  lemma {:induction false} OffsetsAreTight(infos: seq<BufferInfo>, entryParams: bool, base: int, bufs: seq<int>)
    requires |bufs| == |infos| && forall i :: 0 <= i < |bufs| ==> bufs[i] == SlotAt(infos, entryParams, base, i)
    ensures Tight(infos, entryParams, base, Offset(infos, |infos|, entryParams), bufs)
  {
    var a := Allocated(infos, entryParams);
    if a == {} { OffsetSkips(infos, 0, |infos|, entryParams); }
    forall j | j in a && Neighbours(a, -1, j) ensures bufs[j] == base {
      AllocatedIs(infos, entryParams, j);
      OffsetSkips(infos, 0, j, entryParams);
    }
    forall i, j | i in a && j in a && Neighbours(a, i, j) ensures bufs[j] < bufs[i] + infos[i].size + 64 {
      AllocatedIs(infos, entryParams, i);
      AllocatedIs(infos, entryParams, j);
      OffsetSkips(infos, i + 1, j, entryParams);
    }
    forall i | i in a && Neighbours(a, i, |infos|)
      ensures base + Offset(infos, |infos|, entryParams) < bufs[i] + infos[i].size + 64
    {
      AllocatedIs(infos, entryParams, i);
      OffsetSkips(infos, i + 1, |infos|, entryParams);
    }
  }

  /** The total is 0 exactly if every buffer to allocate has size 0. */
  lemma {:induction false} NothingToAllocate(infos: seq<BufferInfo>, n: nat, entryParams: bool)
    requires n <= |infos|
    ensures Offset(infos, n, entryParams) == 0 <==>
              forall i :: 0 <= i < n && infos[i].ShouldAllocate(entryParams) ==> infos[i].size == 0
  {
    if n > 0 {
      NothingToAllocate(infos, n - 1, entryParams);
      assert RoundedUp(infos[n - 1].size) == 0 <==> infos[n - 1].size == 0;
    }
  }

  /** The block handed out: no allocation is made for 0 bytes. */
  function Contiguous(infos: seq<BufferInfo>, entryParams: bool, block: int): int {
    if Offset(infos, |infos|, entryParams) > 0 then block else NULL
  }

  /** Null does not mean "not allocated": once the allocation has succeeded, the slot of a
      buffer to allocate is null if and only if no buffer to allocate has any bytes. */
  lemma {:induction false} NullSlots(infos: seq<BufferInfo>, entryParams: bool, block: int, i: nat)
    requires i < |infos| && infos[i].ShouldAllocate(entryParams) && block > 0
    ensures SlotAt(infos, entryParams, Contiguous(infos, entryParams, block), i) == NULL <==>
              forall j :: 0 <= j < |infos| && infos[j].ShouldAllocate(entryParams) ==> infos[j].size == 0
  {
    NothingToAllocate(infos, |infos|, entryParams);
    OffsetMonotone(infos, i, |infos|, entryParams);
  }

  /** After a failed allocation, exactly the slots with nothing but empty buffers before them. */
  lemma {:induction false} NullSlotsOnFailure(infos: seq<BufferInfo>, entryParams: bool, i: nat)
    requires i < |infos| && infos[i].ShouldAllocate(entryParams)
    ensures SlotAt(infos, entryParams, Contiguous(infos, entryParams, NULL), i) == NULL <==>
              forall j :: 0 <= j < i && infos[j].ShouldAllocate(entryParams) ==> infos[j].size == 0
  {
    NothingToAllocate(infos, i, entryParams);
  }

  /** One temporary buffer of size 0 is to be allocated and gets a null slot. */
  lemma EmptyTempBuffer(block: int)
    ensures
      var infos := [BufferInfo(TempBuffer, 0, -1)];
      && infos[0].ShouldAllocate(false) && Offset(infos, 1, false) == 0
      && SlotAt(infos, false, Contiguous(infos, false, block), 0) == NULL
  {
    var infos := [BufferInfo(TempBuffer, 0, -1)];
    assert Offset(infos, 0, false) == 0;
  }

  /** `block` is what `aligned_malloc` returns for the total, null if it fails. */
  method MallocContiguousBuffers(infos: seq<BufferInfo>, entryParams: bool, block: int) returns (contiguous: int, bufs: seq<int>)
    requires forall i :: 0 <= i < |infos| ==> infos[i].Valid()
    requires 0 <= block && block + Offset(infos, |infos|, entryParams) < WORD
    ensures contiguous == Contiguous(infos, entryParams, block)
    ensures Placed(infos, entryParams, contiguous, Offset(infos, |infos|, entryParams), bufs)
    ensures Tight(infos, entryParams, contiguous, Offset(infos, |infos|, entryParams), bufs)
    ensures forall i :: 0 <= i < |infos| ==> bufs[i] == SlotAt(infos, entryParams, contiguous, i)
    ensures block > 0 ==> forall i :: 0 <= i < |infos| ==>
              (bufs[i] == NULL <==> !infos[i].ShouldAllocate(entryParams) || Offset(infos, |infos|, entryParams) == 0)
  {
    var total := AlignedBufferBytes(infos, entryParams);
    contiguous := NULL;
    if total > 0 { contiguous := block; }
    var pos := contiguous;
    bufs := [];
    for i := 0 to |infos|
      invariant |bufs| == i && pos == contiguous + Offset(infos, i, entryParams)
      invariant forall j :: 0 <= j < i ==> bufs[j] == SlotAt(infos, entryParams, contiguous, j)
    {
      if infos[i].ShouldAllocate(entryParams) {
        bufs := bufs + [pos];
        PositionStep(infos, i, entryParams, contiguous);
        pos := (pos + AlignTo(infos[i].size, ALIGN)) % WORD;
      } else {
        bufs := bufs + [NULL];
      }
    }
    OffsetsArePlaced(infos, entryParams, contiguous, bufs);
    OffsetsAreTight(infos, entryParams, contiguous, bufs);
    forall i | 0 <= i < |infos| && block > 0
      ensures bufs[i] == NULL <==> !infos[i].ShouldAllocate(entryParams) || total == 0
    {
      OffsetMonotone(infos, i, |infos|, entryParams);
    }
  }
}
