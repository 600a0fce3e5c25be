/** The two implementations of guest memory over host buffers: the C++ one that fetches
    instructions (include/dbtranslator/Memory.h, src/Memory.cpp), and the IR one that guest loads and
    stores are linked against (tests/Memory.ll). A host pointer is a segment and an offset. */
module MemoryImpl {
  import opened Words
  import opened GuestMemory

  class SegmentManager {
    var memory: array<Byte>
    var memorySize: Word
    var guestAddress: Word

    constructor (guestAddress: Word, data: seq<Byte>)
      requires |data| < 0x1_0000_0000
      ensures fresh(memory) && memory[..] == data
      ensures this.memorySize == |data| && this.guestAddress == guestAddress
    {
      this.guestAddress := guestAddress;
      memorySize := |data|;
      memory := new Byte[|data|](i requires 0 <= i < |data| => data[i]);
    }
  }

  class MemoryManager {
    var segmentData: array<SegmentManager>
    var numSegments: Word

    /** Every segment has a buffer of its size, and no two share one. */
    ghost predicate Valid()
      reads this, segmentData, segmentData[..], Buffers()
    {
      && segmentData.Length == numSegments
      && (forall i :: 0 <= i < segmentData.Length ==> segmentData[i].memory.Length == segmentData[i].memorySize)
      && (forall i, j :: 0 <= i < j < segmentData.Length ==> segmentData[i].memory != segmentData[j].memory)
    }

    ghost function Buffers(): set<object>
      reads this, segmentData, segmentData[..]
    {
      set i | 0 <= i < segmentData.Length :: segmentData[i].memory
    }

    /** The memory this manager represents. */
    ghost function View(): Mem
      requires Valid()
      reads this, segmentData, segmentData[..], Buffers()
    {
      seq(segmentData.Length, i requires 0 <= i < segmentData.Length
        reads this, segmentData, segmentData[..], Buffers() =>
        Segment(segmentData[i].guestAddress, segmentData[i].memorySize, segmentData[i].memory[..]))
    }

    /** `mapAddress`: the first segment that contains the address, and the offset in it; or null. */
    method MapAddress(addr: Word) returns (p: Option<Location>)
      requires Valid()
      ensures p == Pointer(View(), addr)
    {
      var i := 0;
      while i < numSegments
        invariant 0 <= i <= |View()| && Find(View(), addr, 0) == Find(View(), addr, i)
      {
        var guestAddress := segmentData[i].guestAddress;
        if guestAddress <= addr && addr < Wrap(guestAddress + segmentData[i].memorySize) {
          return Some(Location(i, addr - guestAddress));
        }
        i := i + 1;
      }
      return None;
    }

    /** The search of Memory.ll, which assumes that the table is not empty and that some segment
        contains the address. None is undefined behaviour: an assume was false. */
    method Search(addr: Word) returns (p: Option<Location>)
      requires Valid()
      ensures p == Pointer(View(), addr)
    {
      if numSegments == 0 {
        return None;
      }
      var i := 0;
      while true
        invariant 0 <= i < |View()| && Find(View(), addr, 0) == Find(View(), addr, i)
        decreases |View()| - i
      {
        var guestAddress := segmentData[i].guestAddress;
        if guestAddress <= addr {
          var end := Wrap(segmentData[i].memorySize + guestAddress);
          if addr < end {
            return Some(Location(i, Wrap(addr - guestAddress)));
          }
        }
        i := i + 1;
        if i == numSegments {
          return None;
        }
      }
    }

    /** A little-endian load of `n` bytes through a pointer, inside its buffer. */
    method Load(l: Location, n: nat) returns (v: nat)
      requires Valid() && InBuffer(View(), l, n)
      ensures v == Join(BytesAt(View(), l, n))
    {
      var buffer := segmentData[l.index].memory;
      ghost var bytes := BytesAt(View(), l, n);
      var i := n;
      v := 0;
      while i > 0
        invariant 0 <= i <= n && v == Join(bytes[i..])
      {
        i := i - 1;
        assert bytes[i..][0] == bytes[i] && bytes[i..][1..] == bytes[i + 1..];
        v := buffer[l.offset + i] + 256 * v;
      }
    }

    /** A little-endian store of `n` bytes through a pointer, inside its buffer. */
    method Store(l: Location, n: nat, v: nat)
      requires Valid() && InBuffer(View(), l, n)
      modifies segmentData[l.index].memory
      ensures Valid() && View() == SetBytes(old(View()), l, Split(v, n))
    {
      var buffer := segmentData[l.index].memory;
      ghost var before, bytes := buffer[..], Split(v, n);
      var i, rest := 0, v;
      while i < n
        invariant 0 <= i <= n && Split(rest, n - i) == bytes[i..]
        invariant forall k :: 0 <= k < buffer.Length ==>
          buffer[k] == if l.offset <= k < l.offset + i then bytes[k - l.offset] else before[k]
      {
        assert Split(rest, n - i)[0] == bytes[i] && Split(rest, n - i)[1..] == bytes[i + 1..];
        buffer[l.offset + i] := rest % 256;
        rest := rest / 256;
        i := i + 1;
      }
      assert buffer[..] == Patch(before, l.offset, bytes);
      assert View() == SetBytes(old(View()), l, bytes);
    }

    /** Loads through a pointer that may be null or too near the end of its buffer. */
    method Dereference(width: Width, p: Option<Location>) returns (v: Option<Word>)
      requires Valid() && (p.Some? ==> p.value.index < |View()|)
      ensures v.Some? <==> p.Some? && InBuffer(View(), p.value, width.Bytes())
      ensures v.Some? ==> v.value == Join(BytesAt(View(), p.value, width.Bytes()))
    {
      if p.None? || p.value.offset + width.Bytes() > segmentData[p.value.index].memory.Length {
        return None;
      }
      var x := Load(p.value, width.Bytes());
      ModulusIsPow256(width);
      return Some(x);
    }

    /** Stores through a pointer that may be null or too near the end of its buffer. */
    method Assign(width: Width, p: Option<Location>, v: Word) returns (ok: bool)
      requires Valid() && (p.Some? ==> p.value.index < |View()|)
      modifies Buffers()
      ensures Valid() && (ok <==> p.Some? && InBuffer(old(View()), p.value, width.Bytes()))
      ensures View() == if ok then SetBytes(old(View()), p.value, Split(v, width.Bytes())) else old(View())
      ensures Buffers() == old(Buffers())
    {
      if p.None? || p.value.offset + width.Bytes() > segmentData[p.value.index].memory.Length {
        return false;
      }
      assert segmentData[p.value.index].memory in Buffers();
      Store(p.value, width.Bytes(), v);
      return true;
    }

    /** `read8`, `read16` and `read32` of the C++ implementation. */
    method ReadMapped(width: Width, addr: Word) returns (v: Option<Word>)
      requires Valid()
      ensures v == Read(View(), addr, width)
    {
      ghost var mem := View();
      var p := MapAddress(addr);
      assert View() == mem;
      v := Dereference(width, p);
      assert View() == mem;
      ReadThroughPointer(mem, addr, width);
    }

    /** `write8`, `write16` and `write32` of the C++ implementation. */
    method WriteMapped(width: Width, addr: Word, v: Word) returns (ok: bool)
      requires Valid()
      modifies Buffers()
      ensures Valid() && (ok <==> Write(old(View()), addr, width, v).Some?)
      ensures View() == if ok then Write(old(View()), addr, width, v).value else old(View())
      ensures Buffers() == old(Buffers())
    {
      hide Write, Pointer, InBuffer, SetBytes, Split;
      ghost var mem := View();
      var p := MapAddress(addr);
      assert View() == mem;
      ok := Assign(width, p, v);
      WriteThroughPointer(mem, addr, width, v);
    }

    /** `read8`, `read16` and `read32` of Memory.ll. */
    method ReadAssuming(width: Width, addr: Word) returns (v: Option<Word>)
      requires Valid()
      ensures v == Read(View(), addr, width)
    {
      ghost var mem := View();
      var p := Search(addr);
      assert View() == mem;
      v := Dereference(width, p);
      assert View() == mem;
      ReadThroughPointer(mem, addr, width);
    }

    /** `write8`, `write16` and `write32` of Memory.ll. */
    method WriteAssuming(width: Width, addr: Word, v: Word) returns (ok: bool)
      requires Valid()
      modifies Buffers()
      ensures Valid() && (ok <==> Write(old(View()), addr, width, v).Some?)
      ensures View() == if ok then Write(old(View()), addr, width, v).value else old(View())
      ensures Buffers() == old(Buffers())
    {
      hide Write, Pointer, InBuffer, SetBytes, Split;
      ghost var mem := View();
      var p := Search(addr);
      assert View() == mem;
      ok := Assign(width, p, v);
      WriteThroughPointer(mem, addr, width, v);
    }
  }
}
