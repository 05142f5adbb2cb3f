/** The DSP buffer pool. Every device handle of `handles_local` owns six
    heap buffers (`buf_pool`); each has a size and an in-use flag.
    `tfa98xx_buffer_pool_access` leases and returns buffers of one handle,
    `tfa_buffer_pool` allocates or frees one buffer index on every device. */
module Pool {
  import opened Types
  import Container

  /** `POOL_MAX_INDEX`: the buffers of one handle. */
  const PoolMaxIndex := 6
  /** `MAX_HANDLES`: the entries of `handles_local`. */
  const MaxHandles := 4
  /** `buf_pool_size`: the size the tool gives each buffer index. */
  const BufPoolSize: seq<int> := [64 * 1024, 64 * 1024, 64 * 1024, 64 * 1024, 64 * 1024, 8 * 1024]

  /** `enum pool_control`. */
  datatype Control = NotSupport | Alloc | Free | Get | Return | MaxControl

  /** `struct tfa98xx_buffer_pool`; a NULL `pool` is `null`. */
  datatype Slot = Slot(size: int, inUse: bool, pool: array?<byte>)

  /** A buffer that was never allocated, or was freed. */
  const Empty := Slot(0, false, null)

  /** A buffer's size is that of its storage; without storage it is 0. */
  predicate SlotOk(s: Slot)
  {
    (s.pool == null ==> s.size == 0) && (s.pool != null ==> s.pool.Length == s.size)
  }

  /** Six well-formed buffers, no two sharing storage. */
  predicate PoolOk(slots: seq<Slot>)
  {
    |slots| == PoolMaxIndex &&
    (forall i :: 0 <= i < |slots| ==> SlotOk(slots[i])) &&
    forall i, j :: 0 <= i < j < |slots| && slots[i].pool != null ==> slots[i].pool != slots[j].pool
  }

  /** A free buffer of at least `gSize` bytes. */
  predicate Fits(s: Slot, gSize: nat)
  {
    !s.inUse && s.size >= gSize
  }

  /** The lowest buffer that fits, or -1 when none does. */
  function FirstFit(slots: seq<Slot>, gSize: nat): (r: int)
    ensures -1 <= r < |slots|
    ensures 0 <= r ==> Fits(slots[r], gSize)
    ensures forall i :: 0 <= i < |slots| && (r == -1 || i < r) ==> !Fits(slots[i], gSize)
  {
    if slots == [] then -1
    else if Fits(slots[0], gSize) then 0
    else
      var r := FirstFit(slots[1..], gSize);
      if r == -1 then -1 else r + 1
  }

  /** Buffer `i` marked in use. */
  function Lease(slots: seq<Slot>, i: nat): seq<Slot>
    requires i < |slots|
  {
    slots[i := slots[i].(inUse := true)]
  }

  /** Buffer `i` marked free. */
  function Release(slots: seq<Slot>, i: nat): seq<Slot>
    requires i < |slots|
  {
    slots[i := slots[i].(inUse := false)]
  }

  /** A leased buffer is never handed out again before it is returned,
      whatever size the next request asks for. */
  lemma LeaseIsExclusive(slots: seq<Slot>, gSize: nat, gSize': nat)
    requires FirstFit(slots, gSize) >= 0
    ensures var i := FirstFit(slots, gSize);
      FirstFit(Lease(slots, i), gSize') != i
  {
  }

  /** Returning a leased buffer gives the pool back exactly as it was
      before the lease, so the same request is served by the same buffer. */
  lemma ReturnUndoesGet(slots: seq<Slot>, gSize: nat)
    requires FirstFit(slots, gSize) >= 0
    ensures var i := FirstFit(slots, gSize);
      Release(Lease(slots, i), i) == slots &&
      FirstFit(Release(Lease(slots, i), i), gSize) == i
  {
  }

  /** Leasing a buffer only takes it out of the pool: any other request is
      served by the same buffer as before, unless it would have been this one. */
  lemma {:induction false} LeaseKeepsOthers(slots: seq<Slot>, i: nat, gSize: nat)
    requires i < |slots| && FirstFit(slots, gSize) != i
    ensures FirstFit(Lease(slots, i), gSize) == FirstFit(slots, gSize)
  {
    var r, r' := FirstFit(slots, gSize), FirstFit(Lease(slots, i), gSize);
    if r' != -1 {
      assert Fits(slots[r'], gSize);
    }
    if r != -1 {
      assert Fits(Lease(slots, i)[r], gSize);
    }
  }

  /** The set of storage arrays of some buffers. */
  ghost function Storage(slots: seq<Slot>): set<array<byte>>
  {
    set i | 0 <= i < |slots| && slots[i].pool != null :: slots[i].pool
  }

  /** Leasing and releasing change no storage. */
  lemma StorageFlags(slots: seq<Slot>, i: nat)
    requires i < |slots|
    ensures Storage(Lease(slots, i)) == Storage(slots) == Storage(Release(slots, i))
  {
    assert forall a :: a in Storage(Lease(slots, i)) ==> a in Storage(slots) by {
      forall a | a in Storage(Lease(slots, i)) ensures a in Storage(slots) {
        var k :| 0 <= k < |slots| && Lease(slots, i)[k].pool != null && Lease(slots, i)[k].pool == a;
        assert slots[k].pool == a;
      }
    }
    assert forall a :: a in Storage(slots) ==> a in Storage(Lease(slots, i)) by {
      forall a | a in Storage(slots) ensures a in Storage(Lease(slots, i)) {
        var k :| 0 <= k < |slots| && slots[k].pool != null && slots[k].pool == a;
        assert Lease(slots, i)[k].pool == a;
      }
    }
    assert forall a :: a in Storage(Release(slots, i)) ==> a in Storage(slots) by {
      forall a | a in Storage(Release(slots, i)) ensures a in Storage(slots) {
        var k :| 0 <= k < |slots| && Release(slots, i)[k].pool != null && Release(slots, i)[k].pool == a;
        assert slots[k].pool == a;
      }
    }
    assert forall a :: a in Storage(slots) ==> a in Storage(Release(slots, i)) by {
      forall a | a in Storage(slots) ensures a in Storage(Release(slots, i)) {
        var k :| 0 <= k < |slots| && slots[k].pool != null && slots[k].pool == a;
        assert Release(slots, i)[k].pool == a;
      }
    }
  }

  /** One device handle (`struct tfa98xx_handle_private`): its six buffers
      and its software volume step. */
  class Handle {
    var slots: seq<Slot>  // buf_pool[POOL_MAX_INDEX]
    var vstep: seq<int>   // vstep[2]

    ghost predicate Valid()
      reads this
    {
      PoolOk(slots)
    }

    /** A handle of the zero-initialised `handles_local`. */
    constructor ()
      ensures Valid() && slots == seq(PoolMaxIndex, _ => Empty) && vstep == [0, 0]
    {
      slots := seq(PoolMaxIndex, _ => Empty);
      vstep := [0, 0];
    }

    /** The `POOL_GET` case: lease the lowest free buffer of at least
        `gSize` bytes and return its index, or -1 when there is none. */
    method Get(gSize: nat) returns (index: int)
      requires Valid()
      modifies this
      ensures vstep == old(vstep)
      ensures Valid()
      ensures index == FirstFit(old(slots), gSize)
      ensures slots == if index == -1 then old(slots) else Lease(old(slots), index)
    {
      for i := 0 to PoolMaxIndex
        invariant slots == old(slots)
        invariant forall j :: 0 <= j < i ==> !Fits(slots[j], gSize)
      {
        if slots[i].inUse {
          continue;
        }
        if slots[i].size < gSize {
          continue;
        }
        slots := Lease(slots, i);
        return i;
      }
      return -1;
    }

    /** The `POOL_RETURN` case: a buffer in use is zero-filled and freed
        (0); returning a free buffer changes nothing (-1). A buffer whose
        allocation failed has no storage and nothing to fill. */
    method Return(r: int) returns (result: int)
      requires Valid() && 0 <= r < PoolMaxIndex
      modifies this, slots[r].pool
      ensures vstep == old(vstep)
      ensures Valid()
      ensures old(slots[r].inUse) ==> result == 0 && slots == Release(old(slots), r)
      ensures old(slots[r].inUse) && slots[r].pool != null ==> slots[r].pool[..] == seq(slots[r].size, _ => 0)
      ensures !old(slots[r].inUse) ==> result == -1 && slots == old(slots)
      ensures !old(slots[r].inUse) && slots[r].pool != null ==> unchanged(slots[r].pool)
    {
      if !slots[r].inUse {
        return -1;
      }
      var buf := slots[r].pool;
      if buf != null {
        for k := 0 to slots[r].size
          invariant forall j :: 0 <= j < k ==> buf[j] == 0
          modifies buf
        {
          buf[k] := 0;
        }
        assert buf[..] == seq(slots[r].size, _ => 0);
      }
      slots := Release(slots, r);
      return 0;
    }

    /** A successful malloc for buffer `index`: fresh storage of `size`
        bytes, free. */
    method Provide(index: int, size: nat)
      requires Valid() && 0 <= index < PoolMaxIndex
      modifies this
      ensures vstep == old(vstep)
      ensures Valid()
      ensures slots == old(slots)[index := slots[index]]
      ensures slots[index].size == size && !slots[index].inUse && slots[index].pool != null && fresh(slots[index].pool)
    {
      var buf := new byte[size];
      slots := slots[index := Slot(size, false, buf)];
    }

    /** A failed malloc for buffer `index`: no storage, size 0, in use. */
    method Fail(index: int)
      requires Valid() && 0 <= index < PoolMaxIndex
      modifies this
      ensures vstep == old(vstep)
      ensures Valid() && slots == old(slots)[index := Slot(0, true, null)]
    {
      slots := slots[index := Slot(0, true, null)];
    }

    /** Freeing buffer `index`: no storage, size 0, free. */
    method Drop(index: int)
      requires Valid() && 0 <= index < PoolMaxIndex
      modifies this
      ensures vstep == old(vstep)
      ensures Valid() && slots == old(slots)[index := Empty]
    {
      slots := slots[index := Empty];
    }

    /** The storage of this handle's buffers. */
    ghost function Arrays(): set<array<byte>>
      reads this
    {
      Storage(slots)
    }
  }

  /** `handles_local`: one buffer pool per device handle. */
  class Handles {
    const handles: seq<Handle>

    ghost predicate Valid()
      reads this, handles
    {
      |handles| == MaxHandles &&
      (forall i, j :: 0 <= i < j < |handles| ==> handles[i] != handles[j]) &&
      forall h :: 0 <= h < |handles| ==> handles[h].Valid()
    }

    /** The zero-initialised table: no buffer has storage. */
    constructor ()
      ensures Valid() && fresh(handles)
      ensures forall h :: 0 <= h < MaxHandles ==> handles[h].slots == seq(PoolMaxIndex, _ => Empty) && handles[h].vstep == [0, 0]
    {
      var h0 := new Handle();
      var h1 := new Handle();
      var h2 := new Handle();
      var h3 := new Handle();
      handles := [h0, h1, h2, h3];
    }

    /** `tfa98xx_buffer_pool_access`: `POOL_GET` leases a buffer of the
        handle, `POOL_RETURN` gives buffer `rIndex` back, any other control
        is refused with -1. */
    method Access(handle: int, rIndex: int, gSize: nat, control: Control) returns (r: int)
      requires Valid() && 0 <= handle < MaxHandles
      requires control == Return ==> 0 <= rIndex < PoolMaxIndex
      modifies handles[handle], handles[handle].Arrays()
      ensures Valid() && handles[handle].vstep == old(handles[handle].vstep)
      ensures control == Get ==>
        r == FirstFit(old(handles[handle].slots), gSize) &&
        handles[handle].slots == if r == -1 then old(handles[handle].slots) else Lease(old(handles[handle].slots), r)
      ensures control == Return && old(handles[handle].slots[rIndex].inUse) ==>
        r == 0 && handles[handle].slots == Release(old(handles[handle].slots), rIndex)
      ensures control == Return && !old(handles[handle].slots[rIndex].inUse) ==>
        r == -1 && handles[handle].slots == old(handles[handle].slots)
      ensures control != Get && control != Return ==> r == -1 && handles[handle].slots == old(handles[handle].slots)
    {
      var h := handles[handle];
      match control {
        case Get =>
          r := h.Get(gSize);
        case Return =>
          if h.slots[rIndex].pool != null {
            assert h.slots[rIndex].pool in h.Arrays();
          }
          r := h.Return(rIndex);
        case _ =>
          r := -1;
      }
    }

    /** `tfa_set_swvstep`: both volume-step entries of the handle take the
        new value; the buffers stay as they are. */
    method SetSwVstep(handle: int, newValue: int) returns (r: int)
      requires Valid() && 0 <= handle < MaxHandles && 0 <= newValue < 0x1_0000
      modifies handles[handle]
      ensures Valid() && r == 0
      ensures handles[handle].vstep == [newValue, newValue]
      ensures handles[handle].slots == old(handles[handle].slots)
    {
      var h := handles[handle];
      h.vstep := [newValue, newValue];
      r := 0;
    }

    /** The number of devices whose allocation succeeds in `POOL_ALLOC`:
        `allocs` mallocs succeed, and none for a negative size, which as a
        `size_t` exceeds any heap. */
    static function Allocated(size: int, devcount: nat, allocs: nat): (n: nat)
      ensures n <= devcount
    {
      if size < 0 then 0 else Min(allocs, devcount)
    }

    /** `tfa_buffer_pool`: `POOL_ALLOC` gives buffer `index` of every device
        fresh storage of `size` bytes, stopping with `TFA98XX_ERROR_FAIL` at
        the first failed malloc, whose buffer is left without storage and
        marked in use; `POOL_FREE` drops the storage of buffer `index` of
        every device. The devices are those of the loaded container. Only
        buffer `index` changes, and only on those devices. */
    method BufferPool(cache: Container.ContainerCache, index: int, size: int, control: Control, allocs: nat)
      returns (err: Tfa98xxError)
      requires Valid() && cache.Valid() && 0 <= index < PoolMaxIndex
      modifies handles
      ensures Valid() && forall h :: 0 <= h < MaxHandles ==> handles[h].vstep == old(handles[h].vstep)
      ensures forall h, j :: 0 <= h < MaxHandles && 0 <= j < PoolMaxIndex && j != index ==>
        handles[h].slots[j] == old(handles[h].slots[j])
      ensures control == Alloc ==>
        var devcount := cache.MaxDevice();
        var n := Allocated(size, devcount, allocs);
        err == (if n < devcount then ErrorFail else ErrorOk) &&
        (forall h :: 0 <= h < n ==>
          var s := handles[h].slots[index];
          s.size == size && !s.inUse && s.pool != null && fresh(s.pool)) &&
        (n < devcount ==> handles[n].slots[index] == Slot(0, true, null)) &&
        forall h :: n < h < MaxHandles || devcount <= h < MaxHandles ==>
          handles[h].slots[index] == old(handles[h].slots[index])
      ensures control == Free ==>
        err == ErrorOk &&
        forall h :: 0 <= h < MaxHandles ==>
          handles[h].slots[index] == if h < cache.MaxDevice() then Empty else old(handles[h].slots[index])
      ensures control != Alloc && control != Free ==>
        err == ErrorOk && forall h :: 0 <= h < MaxHandles ==> handles[h].slots == old(handles[h].slots)
    {
      var devcount := cache.MaxDevice();
      match control {
        case Alloc =>
          err := AllocAll(index, size, devcount, Allocated(size, devcount, allocs));
        case Free =>
          FreeAll(index, devcount);
          err := ErrorOk;
        case _ =>
          err := ErrorOk;
      }
    }

    /** The `POOL_ALLOC` loop, with its first `n` mallocs succeeding. */
    method AllocAll(index: int, size: int, devcount: nat, n: nat) returns (err: Tfa98xxError)
      requires Valid() && 0 <= index < PoolMaxIndex && devcount <= MaxHandles && n <= devcount
      requires n > 0 ==> size >= 0
      modifies handles
      ensures Valid() && forall h :: 0 <= h < MaxHandles ==> handles[h].vstep == old(handles[h].vstep)
      ensures forall h, j :: 0 <= h < MaxHandles && 0 <= j < PoolMaxIndex && j != index ==>
        handles[h].slots[j] == old(handles[h].slots[j])
      ensures err == (if n < devcount then ErrorFail else ErrorOk)
      ensures forall h :: 0 <= h < n ==>
        var s := handles[h].slots[index];
        s.size == size && !s.inUse && s.pool != null && fresh(s.pool)
      ensures n < devcount ==> handles[n].slots[index] == Slot(0, true, null)
      ensures forall h :: n < h < MaxHandles || devcount <= h < MaxHandles ==>
        handles[h].slots[index] == old(handles[h].slots[index])
    {
      for dev := 0 to devcount
        invariant Valid() && forall h :: 0 <= h < MaxHandles ==> handles[h].vstep == old(handles[h].vstep)
        invariant forall h, j :: 0 <= h < MaxHandles && 0 <= j < PoolMaxIndex && j != index ==>
          handles[h].slots[j] == old(handles[h].slots[j])
        invariant dev <= n
        invariant forall h :: 0 <= h < dev ==>
          var s := handles[h].slots[index];
          s.size == size && !s.inUse && s.pool != null && fresh(s.pool)
        invariant forall h :: dev <= h < MaxHandles ==> handles[h].slots[index] == old(handles[h].slots[index])
      {
        if dev == n {
          handles[dev].Fail(index);
          return ErrorFail;
        }
        handles[dev].Provide(index, size);
      }
      return ErrorOk;
    }

    /** The `POOL_FREE` loop. */
    method FreeAll(index: int, devcount: nat)
      requires Valid() && 0 <= index < PoolMaxIndex && devcount <= MaxHandles
      modifies handles
      ensures Valid() && forall h :: 0 <= h < MaxHandles ==> handles[h].vstep == old(handles[h].vstep)
      ensures forall h, j :: 0 <= h < MaxHandles && 0 <= j < PoolMaxIndex && j != index ==>
        handles[h].slots[j] == old(handles[h].slots[j])
      ensures forall h :: 0 <= h < MaxHandles ==>
        handles[h].slots[index] == if h < devcount then Empty else old(handles[h].slots[index])
    {
      for dev := 0 to devcount
        invariant Valid() && forall h :: 0 <= h < MaxHandles ==> handles[h].vstep == old(handles[h].vstep)
        invariant forall h, j :: 0 <= h < MaxHandles && 0 <= j < PoolMaxIndex && j != index ==>
          handles[h].slots[j] == old(handles[h].slots[j])
        invariant forall h :: 0 <= h < MaxHandles ==>
          handles[h].slots[index] == if h < dev then Empty else old(handles[h].slots[index])
      {
        handles[dev].Drop(index);
      }
    }
  }
}
