/**
 * The reference-counted registry of shared-memory buffers: `ShmBuffer`, one
 * named segment with its size and reference count, and `ShmManager`, the
 * process-wide map from buffer name to buffer.  The operating-system calls
 * that create and unlink a segment are reduced to one boolean input that says
 * whether they succeeded.
 */
module ShmBuffers {
  import opened Common

  /** What the registry knows about one buffer. */
  datatype BufferState = BufferState(isAllocated: bool, size: nat, refCount: int)

  /** One `release(name, n)` call on the registry. */
  datatype Release = Release(bufferName: string, count: int)

  /**
   * The registry after `release(name, n)`: the count drops by `n`, floored
   * at zero, and the entry is erased exactly when the new count is zero; an
   * absent name is left alone.
   */
  function Released(v: map<string, BufferState>, name: string, n: int): (r: map<string, BufferState>)
    ensures name !in v ==> r == v
    ensures name in v ==> (name !in r <==> v[name].refCount - n <= 0)
    ensures name in r ==> name in v && r[name] == v[name].(refCount := v[name].refCount - n) && r[name].refCount > 0
    ensures forall k :: k != name ==> (k in r <==> k in v)
    ensures forall k :: k != name && k in r ==> r[k] == v[k]
  {
    if name !in v then v
    else
      var c := Floor0(v[name].refCount - n);
      if c == 0 then v - {name} else v[name := v[name].(refCount := c)]
  }

  /** The registry after a series of releases, applied first to last. */
  function ApplyReleases(v: map<string, BufferState>, rs: seq<Release>): map<string, BufferState>
    decreases |rs|
  {
    if rs == [] then v
    else
      var last := rs[|rs| - 1];
      Released(ApplyReleases(v, rs[..|rs| - 1]), last.bufferName, last.count)
  }

  /** Releases never add a buffer, and a buffer that none of them names keeps its state. */
  lemma {:induction false} ApplyReleasesOnlyTouchesNamed(v: map<string, BufferState>, rs: seq<Release>, k: string)
    ensures k in ApplyReleases(v, rs) ==> k in v
    ensures (forall i :: 0 <= i < |rs| ==> rs[i].bufferName != k) ==>
              (k in ApplyReleases(v, rs) <==> k in v)
    ensures (forall i :: 0 <= i < |rs| ==> rs[i].bufferName != k) && k in v ==>
              ApplyReleases(v, rs)[k] == v[k]
    decreases |rs|
  {
    if rs != [] {
      var init := rs[..|rs| - 1];
      assert forall i :: 0 <= i < |init| ==> init[i] == rs[i];
      ApplyReleasesOnlyTouchesNamed(v, init, k);
    }
  }

  /** Appending one release to the series is one more `Released` step. */
  lemma ApplyReleasesSnoc(v: map<string, BufferState>, rs: seq<Release>, x: Release)
    ensures ApplyReleases(v, rs + [x]) == Released(ApplyReleases(v, rs), x.bufferName, x.count)
  {
    assert (rs + [x])[..|rs + [x]| - 1] == rs;
  }

  /** Applying two series of releases one after the other is applying their concatenation. */
  lemma {:induction false} ApplyReleasesAppend(v: map<string, BufferState>, a: seq<Release>, b: seq<Release>)
    ensures ApplyReleases(v, a + b) == ApplyReleases(ApplyReleases(v, a), b)
    decreases |b|
  {
    if b == [] {
      assert a + b == a;
    } else {
      var b' := b[..|b| - 1];
      ApplyReleasesAppend(v, a, b');
      assert (a + b)[..|a + b| - 1] == a + b';
    }
  }

  class ShmBuffer {
    const name: string
    var isAllocated: bool
    var size: nat
    var refCount: int

    /** The buffer as the registry records it. */
    function State(): BufferState
      reads this
    {
      BufferState(isAllocated, size, refCount)
    }

    /** A new buffer is unallocated, of size 0, with no references. */
    constructor (name: string)
      ensures this.name == name
      ensures !isAllocated && size == 0 && refCount == 0
    {
      this.name := name;
      isAllocated := false;
      size := 0;
      refCount := 0;
    }

    /**
     * Creates and sizes the segment; `osSucceeds` stands for the outcome of
     * the operating-system calls.  An already allocated buffer is refused.
     */
    method Allocate(size: nat, osSucceeds: bool) returns (ok: bool)
      modifies this
      ensures ok <==> !old(isAllocated) && osSucceeds
      ensures isAllocated == (old(isAllocated) || ok)
      ensures this.size == if ok then size else old(this.size)
      ensures refCount == old(refCount)
    {
      if isAllocated {
        return false;
      }
      if osSucceeds {
        isAllocated := true;
        this.size := size;
      }
      ok := isAllocated;
    }

    /** Unlinks the segment if it is allocated. */
    method Deallocate()
      modifies this
      ensures !isAllocated
      ensures size == old(size) && refCount == old(refCount)
    {
      if isAllocated {
        isAllocated := false;
      }
    }

    method GetName() returns (r: string)
      ensures r == name
    {
      r := name;
    }

    method GetSize() returns (r: nat)
      ensures r == size
    {
      r := size;
    }

    method GetRefCount() returns (r: int)
      ensures r == refCount
    {
      r := refCount;
    }

    method IncRefCount()
      modifies this
      ensures refCount == old(refCount) + 1
      ensures isAllocated == old(isAllocated) && size == old(size)
    {
      refCount := refCount + 1;
    }

    /** Drops `n` references (one by default); the count never goes below zero. */
    method DecRefCount(n: int := 1)
      modifies this
      ensures refCount >= 0
      ensures old(refCount) - n >= 0 ==> refCount == old(refCount) - n
      ensures old(refCount) - n < 0 ==> refCount == 0
      ensures isAllocated == old(isAllocated) && size == old(size)
    {
      refCount := Floor0(refCount - n);
    }

    method SetRefCount(count: int)
      modifies this
      ensures refCount == count
      ensures isAllocated == old(isAllocated) && size == old(size)
    {
      refCount := count;
    }
  }

  class ShmManager {
    var buffers: map<string, ShmBuffer>

    /** Every buffer is filed under its own name. */
    ghost predicate Valid()
      reads this
    {
      forall k :: k in buffers ==> buffers[k].name == k
    }

    /** The registry's contents as values. */
    function View(): map<string, BufferState>
      reads this, buffers.Values
    {
      map k | k in buffers :: buffers[k].State()
    }

    constructor ()
      ensures Valid() && buffers == map[]
    {
      buffers := map[];
    }

    /** The buffer filed under `name`, if any; the registry is not modified. */
    method GetBuffer(name: string) returns (b: ShmBuffer?)
      ensures b == null <==> name !in buffers
      ensures b != null ==> name in buffers && b == buffers[name]
    {
      if name in buffers {
        b := buffers[name];
      } else {
        b := null;
      }
    }

    /** Files `b` under its own name, replacing whatever was there. */
    method Add(b: ShmBuffer)
      requires Valid()
      modifies this
      ensures Valid()
      ensures buffers == old(buffers)[b.name := b]
      ensures View() == old(View())[b.name := b.State()]
    {
      buffers := buffers[b.name := b];
    }

    /**
     * Drops `n` references to the named buffer (one by default) and erases it
     * when no reference is left; an unknown name is ignored.
     */
    method Release(name: string, n: int := 1)
      requires Valid()
      modifies this, buffers.Values
      ensures Valid()
      ensures View() == Released(old(View()), name, n)
      ensures buffers == if name in View() then old(buffers) else old(buffers) - {name}
      ensures buffers.Values <= old(buffers.Values)
      ensures forall b :: b in old(buffers.Values) && (name !in old(buffers) || b != old(buffers[name])) ==> unchanged(b)
    {
      if name in buffers {
        var b := buffers[name];
        b.DecRefCount(n);
        if b.refCount == 0 {
          buffers := buffers - {name};
        }
      }
    }

    /** Erases the named buffer whatever its count, after zeroing the count. */
    method ReleaseComplete(name: string)
      requires Valid()
      modifies this, buffers.Values
      ensures Valid()
      ensures View() == old(View()) - {name}
      ensures buffers == old(buffers) - {name}
      ensures name in old(buffers) ==> old(buffers[name]).refCount == 0
      ensures name in old(buffers) ==>
        var b := old(buffers[name]);
        b.isAllocated == old(b.isAllocated) && b.size == old(b.size)
      ensures forall b :: b in old(buffers.Values) && (name !in old(buffers) || b != old(buffers[name])) ==> unchanged(b)
    {
      if name in buffers {
        var b := buffers[name];
        b.SetRefCount(0);
        buffers := buffers - {name};
      }
    }

    /** Zeroes every count and empties the registry. */
    method ReleaseAll()
      requires Valid()
      modifies this, buffers.Values
      ensures Valid() && buffers == map[] && View() == map[]
      ensures forall b :: b in old(buffers.Values) ==>
        b.refCount == 0 && b.isAllocated == old(b.isAllocated) && b.size == old(b.size)
    {
      var pending := buffers.Keys;
      while pending != {}
        invariant pending <= buffers.Keys && buffers == old(buffers)
        invariant forall k :: k in buffers && k !in pending ==> buffers[k].refCount == 0
        invariant forall b :: b in old(buffers.Values) ==> b.isAllocated == old(b.isAllocated) && b.size == old(b.size)
        decreases pending
      {
        var k :| k in pending;
        buffers[k].SetRefCount(0);
        pending := pending - {k};
      }
      buffers := map[];
    }
  }
}
