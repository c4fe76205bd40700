/** The growing byte buffer under a cache: MemoryHandler with its malloc implementation. */
module Memory {
  import opened Bytes

  const INITIAL_CAPACITY: nat := 1024

  /** Capacity once growBy more bytes are in use: half the old capacity is added as slack. */
  function CapacityAfter(size: nat, capacity: nat, growBy: nat): nat {
    if size + growBy >= capacity then size + growBy + capacity / 2 else capacity
  }

  predicate Reallocates(size: nat, capacity: nat, growBy: nat) {
    size + growBy >= capacity
  }

  class MallocMemoryHandler {
    var data: array<byte>
    var dataSize: nat
    var realDataSize: nat
    ghost var moved: nat  // bytes copied by all reallocations since the last allocation

    ghost predicate Valid()
      reads this
    {
      data.Length == realDataSize && dataSize <= realDataSize
    }

    /** The bytes in use. */
    ghost function Contents(): (s: seq<byte>)
      reads this, data
      requires Valid()
    {
      data[..dataSize]
    }

    ghost function GetFootprint(): Footprint
      reads this
    {
      Footprint(dataSize, realDataSize, moved)
    }

    constructor ()
      ensures Valid() && fresh(data)
      ensures dataSize == 0 && realDataSize == 1024
    {
      data := new byte[INITIAL_CAPACITY](_ => 0);
      dataSize := 0;
      realDataSize := INITIAL_CAPACITY;
      moved := 0;
    }

    /** A handler over an image that is already in memory, as a loader leaves it. */
    constructor FromImage(image: seq<byte>)
      ensures Valid() && fresh(data)
      ensures Contents() == image && dataSize == realDataSize == |image|
    {
      data := new byte[|image|](i requires 0 <= i < |image| => image[i]);
      dataSize := |image|;
      realDataSize := |image|;
      moved := 0;
      new;
      assert data[..] == image;
    }

    method Allocate(newSize: nat)
      requires Valid()
      modifies this
      ensures Valid()
      ensures newSize >= old(dataSize) ==>
                && fresh(data) && Contents() == seq(newSize, _ => 0)
                && GetFootprint() == Footprint(newSize, newSize, 0)
      ensures newSize < old(dataSize) ==> unchanged(this)
    {
      if newSize >= dataSize {
        data := new byte[newSize](_ => 0);
        dataSize := newSize;
        realDataSize := newSize;
        moved := 0;
        assert data[..] == seq(newSize, _ => 0);
      }
    }

    /** Reallocation copies what is in use; the slack it adds has no defined value. */
    method ResizeToFit(newSize: nat)
      requires Valid()
      modifies this`data, this`realDataSize, this`moved
      ensures Valid() && newSize <= realDataSize
      ensures Contents() == old(Contents())
      ensures if newSize >= old(realDataSize)
              then && fresh(data) && realDataSize == newSize + old(realDataSize) / 2
                   && moved == old(moved) + old(realDataSize)
              else data == old(data) && realDataSize == old(realDataSize) && moved == old(moved)
    {
      if newSize >= realDataSize {
        var newSizeBytes := newSize + realDataSize / 2;
        var newValueSpace := new byte[newSizeBytes];
        forall i | 0 <= i < dataSize {
          newValueSpace[i] := data[i];
        }
        data := newValueSpace;
        moved := moved + realDataSize;
        realDataSize := newSizeBytes;
        assert data[..dataSize] == old(data[..dataSize]);
      }
    }

    /** Makes room for growByBytes bytes at the end and returns where they start. */
    method Grow(growByBytes: nat) returns (offset: nat)
      requires Valid()
      modifies this
      ensures Valid()
      ensures GetFootprint() == GrowStep(old(GetFootprint()), growByBytes)
      ensures offset == old(dataSize) && data[..offset] == old(Contents())
      ensures if Reallocates(old(dataSize), old(realDataSize), growByBytes)
              then fresh(data) else data == old(data)
    {
      ResizeToFit(dataSize + growByBytes);
      offset := dataSize;
      dataSize := dataSize + growByBytes;
    }

    /** memcpy into the bytes in use. */
    method Write(at: nat, bytes: seq<byte>)
      requires Valid() && at + |bytes| <= dataSize
      modifies data
      ensures Valid() && Contents() == old(data[..at]) + bytes + old(Contents()[at + |bytes|..])
    {
      forall j | 0 <= j < |bytes| {
        data[at + j] := bytes[j];
      }
    }
  }

  // ---------- what a run of growths costs

  datatype Footprint = Footprint(size: nat, capacity: nat, moved: nat)

  /** One growth; a reallocation may copy the whole old block. */
  function GrowStep(f: Footprint, growBy: nat): Footprint {
    Footprint(
      f.size + growBy,
      CapacityAfter(f.size, f.capacity, growBy),
      f.moved + if Reallocates(f.size, f.capacity, growBy) then f.capacity else 0)
  }

  function GrowRun(f: Footprint, growths: seq<nat>): Footprint
    decreases |growths|
  {
    if |growths| == 0 then f else GrowRun(GrowStep(f, growths[0]), growths[1..])
  }

  function Sum(s: seq<nat>): nat {
    if s == [] then 0 else s[0] + Sum(s[1..])
  }

  /** Every run of growths copies at most three times the capacity it ends with. */
  lemma {:induction false} GrowthIsAmortized(f: Footprint, growths: seq<nat>)
    requires f.size <= f.capacity && 2 <= f.capacity && f.moved <= 3 * f.capacity
    ensures var g := GrowRun(f, growths);
            && g.size == f.size + Sum(growths)
            && g.size <= g.capacity && f.capacity <= g.capacity
            && g.moved <= 3 * g.capacity
    decreases |growths|
  {
    if growths != [] {
      GrowthIsAmortized(GrowStep(f, growths[0]), growths[1..]);
    }
  }

  /** The slack left by the last reallocation of a run never exceeds half of what is in use. */
  lemma {:induction false} SlackIsAtMostHalf(f: Footprint, growths: seq<nat>)
    requires f.size <= f.capacity && (f.capacity == f.size || 2 * f.capacity <= 3 * f.size)
    ensures var g := GrowRun(f, growths);
            2 * g.capacity <= 3 * g.size
    decreases |growths|
  {
    if growths != [] {
      SlackIsAtMostHalf(GrowStep(f, growths[0]), growths[1..]);
    }
  }

  /** The run from a fresh allocation of c bytes copies at most three times the capacity it ends with. */
  predicate Amortized(c: nat, growths: seq<nat>) {
    var g := GrowRun(Footprint(c, c, 0), growths);
    g.moved <= 3 * g.capacity
  }

  /** All runs are amortised exactly when they start from at least two bytes: one byte, or none after
      growing by one, can be reallocated for ever. */
  lemma AmortizedFromTwo(c: nat)
    ensures (forall growths: seq<nat> :: Amortized(c, growths)) <==> 2 <= c
  {
    if 2 <= c {
      forall growths: seq<nat>
        ensures Amortized(c, growths)
      {
        GrowthIsAmortized(Footprint(c, c, 0), growths);
      }
    } else {
      var zeros: seq<nat> := seq(4, _ => 0);
      var growths := if c == 0 then [1] + zeros else zeros;
      OneByteRun(4, 0);
      assert c == 0 ==> growths[1..] == zeros && GrowStep(Footprint(0, 0, 0), 1) == Footprint(1, 1, 0);
      assert GrowRun(Footprint(c, c, 0), growths) == Footprint(1, 1, 4);
      assert !Amortized(c, growths);
    }
  }

  lemma {:induction false} OneByteRun(n: nat, moved: nat)
    ensures GrowRun(Footprint(1, 1, moved), seq(n, _ => 0)) == Footprint(1, 1, moved + n)
    decreases n
  {
    if n != 0 {
      assert seq<nat>(n, _ => 0)[1..] == seq<nat>(n - 1, _ => 0);
      assert GrowStep(Footprint(1, 1, moved), 0) == Footprint(1, 1, moved + 1);
      OneByteRun(n - 1, moved + 1);
    }
  }
}
