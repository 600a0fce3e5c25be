/** Guest memory as a value: the segment table, the first-match search, and the
    little-endian accesses that both implementations of the search perform. */
module GuestMemory {
  import opened Words

  datatype Width = W8 | W16 | W32 {
    function Bytes(): (n: nat)
      ensures 1 <= n <= 4
    {
      match this
      case W8 => 1
      case W16 => 2
      case W32 => 4
    }
  }

  /** One segment: its guest address, its size, and a host buffer of that size. */
  datatype Segment = Segment(base: Word, size: Word, data: seq<Byte>)

  /** The end of the segment is a 32-bit sum, so it may wrap. */
  predicate Contains(s: Segment, a: Word) {
    s.base <= a < Wrap(s.base + s.size)
  }

  predicate ValidSegment(s: Segment) {
    |s.data| == s.size
  }

  type Mem = m: seq<Segment> | forall k :: 0 <= k < |m| ==> ValidSegment(m[k])

  /** The first segment from `from` on that contains `a`, or the length of the table. */
  function Find(mem: Mem, a: Word, from: nat): (r: nat)
    requires from <= |mem|
    ensures from <= r <= |mem|
    ensures forall j :: from <= j < r ==> !Contains(mem[j], a)
    ensures r < |mem| ==> Contains(mem[r], a)
    decreases |mem| - from
  {
    if from == |mem| || Contains(mem[from], a) then from else Find(mem, a, from + 1)
  }

  datatype Location = Location(index: nat, offset: nat)

  /** The host pointer to guest address `a`, in the segment selected for it; none if none is. */
  function Pointer(mem: Mem, a: Word): (r: Option<Location>)
    ensures r.Some? ==>
      && r.value.index < |mem|
      && Contains(mem[r.value.index], a)
      && r.value.offset == a - mem[r.value.index].base
  {
    var k := Find(mem, a, 0);
    if k == |mem| then None else Some(Location(k, a - mem[k].base))
  }

  predicate InBuffer(mem: Mem, l: Location, n: nat) {
    l.index < |mem| && l.offset + n <= |mem[l.index].data|
  }

  /** Where `n` bytes at guest address `a` live: all of them behind its pointer. Nowhere if there
      is none or the buffer ends early. */
  function Locate(mem: Mem, a: Word, n: nat): (r: Option<Location>)
    ensures r.Some? ==> r == Pointer(mem, a) && InBuffer(mem, r.value, n)
  {
    match Pointer(mem, a)
    case None => None
    case Some(l) => if InBuffer(mem, l, n) then Some(l) else None
  }

  function Modulus(width: Width): nat {
    match width
    case W8 => 0x100
    case W16 => 0x1_0000
    case W32 => 0x1_0000_0000
  }

  lemma ModulusIsPow256(width: Width)
    ensures Modulus(width) == Pow256(width.Bytes())
  {
    assert Pow256(1) == 0x100;
    assert Pow256(2) == 0x1_0000;
    assert Pow256(3) == 0x100_0000;
    assert Pow256(4) == 0x1_0000_0000;
  }

  /** The tables of two memories agree except for the bytes. */
  predicate SameLayout(m: Mem, m': Mem) {
    |m| == |m'| && forall k :: 0 <= k < |m| ==> m[k].base == m'[k].base && m[k].size == m'[k].size
  }

  function BytesAt(mem: Mem, l: Location, n: nat): (s: seq<Byte>)
    requires InBuffer(mem, l, n)
    ensures |s| == n
  {
    mem[l.index].data[l.offset..l.offset + n]
  }

  function Read(mem: Mem, a: Word, width: Width): (r: Option<Word>)
    ensures r.Some? ==> r.value < Modulus(width)
  {
    var n := width.Bytes();
    match Locate(mem, a, n)
    case None => None
    case Some(l) =>
      ModulusIsPow256(width);
      Some(Join(BytesAt(mem, l, n)))
  }

  /** Reading is dereferencing the pointer. */
  lemma ReadThroughPointer(mem: Mem, a: Word, width: Width)
    ensures var p := Pointer(mem, a);
      if p.Some? && InBuffer(mem, p.value, width.Bytes()) then
        Read(mem, a, width).Some? && Read(mem, a, width).value == Join(BytesAt(mem, p.value, width.Bytes()))
      else Read(mem, a, width).None?
  {
  }

  function Patch(data: seq<Byte>, offset: nat, bytes: seq<Byte>): (r: seq<Byte>)
    requires offset + |bytes| <= |data|
    ensures |r| == |data|
    ensures forall k :: 0 <= k < |data| ==>
      r[k] == if offset <= k < offset + |bytes| then bytes[k - offset] else data[k]
  {
    data[..offset] + bytes + data[offset + |bytes|..]
  }

  function SetBytes(mem: Mem, l: Location, bytes: seq<Byte>): (r: Mem)
    requires InBuffer(mem, l, |bytes|)
    ensures SameLayout(mem, r)
  {
    mem[l.index := mem[l.index].(data := Patch(mem[l.index].data, l.offset, bytes))]
  }

  function Write(mem: Mem, a: Word, width: Width, v: Word): (r: Option<Mem>)
    ensures r.Some? ==> SameLayout(mem, r.value)
  {
    var n := width.Bytes();
    match Locate(mem, a, n)
    case None => None
    case Some(l) => Some(SetBytes(mem, l, Split(v, n)))
  }

  /** Writing is assigning through the pointer. */
  lemma WriteThroughPointer(mem: Mem, a: Word, width: Width, v: Word)
    ensures var p := Pointer(mem, a);
      Write(mem, a, width, v) ==
        if p.Some? && InBuffer(mem, p.value, width.Bytes()) then Some(SetBytes(mem, p.value, Split(v, width.Bytes())))
        else None
  {
    hide SetBytes, Split, Pointer, InBuffer;
  }

  lemma BytesAfterSet(mem: Mem, l: Location, bytes: seq<Byte>)
    requires InBuffer(mem, l, |bytes|)
    ensures BytesAt(SetBytes(mem, l, bytes), l, |bytes|) == bytes
  {
  }

  predicate Apart(l: Location, n: nat, l': Location, n': nat) {
    l.index != l'.index || l.offset + n <= l'.offset || l'.offset + n' <= l.offset
  }

  lemma BytesApart(mem: Mem, l: Location, bytes: seq<Byte>, l': Location, n: nat)
    requires InBuffer(mem, l, |bytes|) && InBuffer(mem, l', n) && Apart(l, |bytes|, l', n)
    ensures InBuffer(SetBytes(mem, l, bytes), l', n)
    ensures BytesAt(SetBytes(mem, l, bytes), l', n) == BytesAt(mem, l', n)
  {
  }

  lemma SetsCommute(mem: Mem, l: Location, s: seq<Byte>, l': Location, s': seq<Byte>)
    requires InBuffer(mem, l, |s|) && InBuffer(mem, l', |s'|) && Apart(l, |s|, l', |s'|)
    ensures InBuffer(SetBytes(mem, l, s), l', |s'|) && InBuffer(SetBytes(mem, l', s'), l, |s|)
    ensures SetBytes(SetBytes(mem, l, s), l', s') == SetBytes(SetBytes(mem, l', s'), l, s)
  {
    if l.index == l'.index {
      PatchesCommute(mem[l.index].data, l.offset, s, l'.offset, s');
    }
  }

  lemma PatchesCommute(data: seq<Byte>, o: nat, s: seq<Byte>, o': nat, s': seq<Byte>)
    requires o + |s| <= |data| && o' + |s'| <= |data|
    requires o + |s| <= o' || o' + |s'| <= o
    ensures Patch(Patch(data, o, s), o', s') == Patch(Patch(data, o', s'), o, s)
  {
  }

  // ----- the search -----

  /** A segment whose end wraps contains no address. */
  lemma WrappingSegmentIsEmpty(s: Segment, a: Word)
    requires s.base + s.size >= 0x1_0000_0000
    ensures !Contains(s, a)
  {
  }

  /** A segment holds the addresses from its base up to its end, and none if the end wraps. */
  lemma ContainsIff(s: Segment, a: Word)
    ensures Contains(s, a) <==> s.base <= a < s.base + s.size && s.base + s.size < 0x1_0000_0000
  {
    if s.base + s.size >= 0x1_0000_0000 {
      WrappingSegmentIsEmpty(s, a);
    }
  }

  /** The host offset of a selected address is strictly inside the buffer. */
  lemma SelectedOffsetInBounds(mem: Mem, a: Word)
    ensures var k := Find(mem, a, 0);
      k < |mem| ==>
        && 0 <= a - mem[k].base < mem[k].size
        && mem[k].base + mem[k].size < 0x1_0000_0000
  {
    var k := Find(mem, a, 0);
    if k < |mem| && mem[k].base + mem[k].size >= 0x1_0000_0000 {
      WrappingSegmentIsEmpty(mem[k], a);
    }
  }

  /** The search, for any number of segments and under wrap-around: no pointer exactly when no
      segment contains the address; otherwise it points strictly inside the first one that does,
      which is never one whose end wraps. */
  lemma FirstMatch(mem: Mem, a: Word)
    ensures var p := Pointer(mem, a);
      && (p.None? <==> forall k :: 0 <= k < |mem| ==> !Contains(mem[k], a))
      && (p.Some? ==>
            && (forall j :: 0 <= j < p.value.index ==> !Contains(mem[j], a))
            && p.value.offset < |mem[p.value.index].data|
            && mem[p.value.index].base + mem[p.value.index].size < 0x1_0000_0000)
  {
    SelectedOffsetInBounds(mem, a);
    var k := Find(mem, a, 0);
    assert k < |mem| ==> Contains(mem[k], a) && ValidSegment(mem[k]);
  }

  /** `Read` fails exactly when no segment holds the address or the access leaves its buffer. */
  lemma ReadFailsIff(mem: Mem, a: Word, width: Width)
    ensures Read(mem, a, width).None? <==>
      forall k :: 0 <= k < |mem| && Contains(mem[k], a) ==>
        (exists j :: 0 <= j < k && Contains(mem[j], a)) || a - mem[k].base + width.Bytes() > mem[k].size
  {
    var f := Find(mem, a, 0);
    if f < |mem| {
      assert Contains(mem[f], a);
      if Read(mem, a, width).None? {
        forall k | 0 <= k < |mem| && Contains(mem[k], a)
          ensures (exists j :: 0 <= j < k && Contains(mem[j], a)) || a - mem[k].base + width.Bytes() > mem[k].size
        {
          if k != f {
            assert f < k && Contains(mem[f], a);
          }
        }
      }
    }
  }

  /** A write works exactly where a read does. */
  lemma WriteWorksIff(mem: Mem, a: Word, width: Width, v: Word)
    ensures Write(mem, a, width, v).Some? <==> Read(mem, a, width).Some?
  {
  }

  /** `Write` fails exactly when no segment holds the address or the access leaves its buffer. */
  lemma WriteFailsIff(mem: Mem, a: Word, width: Width, v: Word)
    ensures Write(mem, a, width, v).None? <==>
      forall k :: 0 <= k < |mem| && Contains(mem[k], a) ==>
        (exists j :: 0 <= j < k && Contains(mem[j], a)) || a - mem[k].base + width.Bytes() > mem[k].size
  {
    WriteWorksIff(mem, a, width, v);
    ReadFailsIff(mem, a, width);
  }

  lemma {:induction false} SameLayoutFind(m: Mem, m': Mem, a: Word, from: nat)
    requires SameLayout(m, m') && from <= |m|
    ensures Find(m, a, from) == Find(m', a, from)
    decreases |m| - from
  {
    if from < |m| {
      assert Contains(m[from], a) == Contains(m'[from], a);
      if !Contains(m[from], a) {
        SameLayoutFind(m, m', a, from + 1);
      }
    }
  }

  lemma SameLayoutLocate(m: Mem, m': Mem, a: Word, n: nat)
    requires SameLayout(m, m')
    ensures Locate(m, a, n) == Locate(m', a, n)
  {
    SameLayoutFind(m, m', a, 0);
    var f := Find(m, a, 0);
    assert f < |m| ==> ValidSegment(m[f]) && ValidSegment(m'[f]);
  }

  // ----- read after write, framing, commutation -----

  lemma ReadAfterWrite(mem: Mem, a: Word, width: Width, v: Word)
    requires Write(mem, a, width, v).Some?
    ensures Read(Write(mem, a, width, v).value, a, width) == Some(v % Modulus(width))
  {
    var n := width.Bytes();
    var mem' := Write(mem, a, width, v).value;
    SameLayoutLocate(mem, mem', a, n);
    var l := Locate(mem, a, n).value;
    BytesAfterSet(mem, l, Split(v, n));
    JoinSplit(v, n);
    ModulusIsPow256(width);
  }

  /** A store keeps the low bytes of its value only. */
  lemma WriteTruncates(mem: Mem, a: Word, width: Width, v: Word)
    ensures Write(mem, a, width, v % Modulus(width)) == Write(mem, a, width, v)
  {
    ModulusIsPow256(width);
    SplitResidue(v, width.Bytes());
  }

  lemma {:induction false} SplitResidue(v: nat, n: nat)
    ensures Split(v % Pow256(n), n) == Split(v, n)
  {
    if n > 0 {
      var r := v % Pow256(n);
      ModSplit(v, 256, Pow256(n - 1));
      DivisionIsUnique(r, 256, (v / 256) % Pow256(n - 1), v % 256);
      SplitResidue(v / 256, n - 1);
    }
  }

  /** `x` is one of the `n` bytes from `a` on, modulo 2^32. */
  predicate InWindow(x: Word, a: Word, n: nat) {
    Wrap(x - a) < n
  }

  predicate DisjointWindows(a: Word, n: nat, b: Word, m: nat) {
    forall x: Word :: !(InWindow(x, a, n) && InWindow(x, b, m))
  }

  /** Two located accesses of disjoint guest windows touch different host bytes. */
  lemma DisjointLocations(mem: Mem, a: Word, n: nat, b: Word, m: nat)
    requires DisjointWindows(a, n, b, m)
    requires Locate(mem, a, n).Some? && Locate(mem, b, m).Some?
    requires n > 0 && m > 0
    ensures Apart(Locate(mem, a, n).value, n, Locate(mem, b, m).value, m)
  {
    var l, l' := Locate(mem, a, n).value, Locate(mem, b, m).value;
    SelectedOffsetInBounds(mem, a);
    if l.index == l'.index {
      if l.offset <= l'.offset < l.offset + n {
        assert InWindow(b, a, n) && InWindow(b, b, m);
      } else if l'.offset <= l.offset < l'.offset + m {
        assert InWindow(a, a, n) && InWindow(a, b, m);
      }
    }
  }

  /** A write leaves every read of a disjoint window as it was, faults included. */
  lemma WriteFrame(mem: Mem, a: Word, width: Width, v: Word, b: Word, width': Width)
    requires Write(mem, a, width, v).Some?
    requires DisjointWindows(a, width.Bytes(), b, width'.Bytes())
    ensures Read(Write(mem, a, width, v).value, b, width') == Read(mem, b, width')
  {
    var mem' := Write(mem, a, width, v).value;
    var m := width'.Bytes();
    SameLayoutLocate(mem, mem', b, m);
    if Locate(mem, b, m).Some? {
      DisjointLocations(mem, a, width.Bytes(), b, m);
      var l, l' := Locate(mem, a, width.Bytes()).value, Locate(mem, b, m).value;
      BytesApart(mem, l, Split(v, width.Bytes()), l', m);
    }
  }

  /** Writes to disjoint windows commute, whatever the layout of the segments. */
  lemma WritesCommute(mem: Mem, a: Word, w: Width, v: Word, b: Word, w': Width, v': Word)
    requires DisjointWindows(a, w.Bytes(), b, w'.Bytes())
    requires Write(mem, a, w, v).Some? && Write(mem, b, w', v').Some?
    ensures Write(Write(mem, a, w, v).value, b, w', v').Some?
    ensures Write(Write(mem, a, w, v).value, b, w', v') == Write(Write(mem, b, w', v').value, a, w, v)
  {
    var n, n' := w.Bytes(), w'.Bytes();
    var ma, mb := Write(mem, a, w, v).value, Write(mem, b, w', v').value;
    SameLayoutLocate(mem, ma, b, n');
    SameLayoutLocate(mem, mb, a, n);
    DisjointLocations(mem, a, n, b, n');
    SetsCommute(mem, Locate(mem, a, n).value, Split(v, n), Locate(mem, b, n').value, Split(v', n'));
  }

  // ----- the flat view -----

  /** No guest address lies in two segments. */
  predicate DisjointSegments(mem: Mem) {
    forall i, j, a: Word :: 0 <= i < j < |mem| ==> !(Contains(mem[i], a) && Contains(mem[j], a))
  }

  /** Segments are disjoint exactly when any two of them lie one after the other, or one of them is
      empty or ends beyond the address space. */
  lemma DisjointSegmentsIff(mem: Mem)
    ensures DisjointSegments(mem) <==>
      forall i, j :: 0 <= i < j < |mem| ==> Separate(mem[i], mem[j])
  {
    forall i, j | 0 <= i < j < |mem|
      ensures Separate(mem[i], mem[j]) <==> forall a: Word :: !(Contains(mem[i], a) && Contains(mem[j], a))
    {
      SeparateIff(mem[i], mem[j]);
    }
    if DisjointSegments(mem) {
      forall i, j | 0 <= i < j < |mem| ensures Separate(mem[i], mem[j]) {
        assert forall a: Word :: !(Contains(mem[i], a) && Contains(mem[j], a));
      }
    }
  }

  predicate Occupied(s: Segment) {
    s.size > 0 && s.base + s.size < 0x1_0000_0000
  }

  predicate Separate(s: Segment, t: Segment) {
    Occupied(s) && Occupied(t) ==> s.base + s.size <= t.base || t.base + t.size <= s.base
  }

  lemma SeparateIff(s: Segment, t: Segment)
    ensures Separate(s, t) <==> forall a: Word :: !(Contains(s, a) && Contains(t, a))
  {
    if !Separate(s, t) {
      var a: Word := if s.base <= t.base then t.base else s.base;
      assert Contains(s, a) && Contains(t, a);
    }
  }

  /** The byte at `a`, if some segment holds it: memory as a partial map from addresses to bytes. */
  function FlatByte(mem: Mem, a: Word): Option<Byte> {
    var k := Find(mem, a, 0);
    if k == |mem| then None
    else
      SelectedOffsetInBounds(mem, a);
      Some(mem[k].data[a - mem[k].base])
  }

  lemma FlatByteOfSegment(mem: Mem, k: nat, a: Word)
    requires DisjointSegments(mem) && k < |mem| && Contains(mem[k], a)
    ensures mem[k].base + mem[k].size < 0x1_0000_0000 && a - mem[k].base < |mem[k].data|
    ensures FlatByte(mem, a) == Some(mem[k].data[a - mem[k].base])
  {
    if mem[k].base + mem[k].size >= 0x1_0000_0000 {
      WrappingSegmentIsEmpty(mem[k], a);
    }
    var f := Find(mem, a, 0);
    assert f <= k;
  }

  /** The bytes of a located access are the flat bytes at consecutive addresses. */
  lemma LocatedBytesAreFlat(mem: Mem, a: Word, n: nat, i: nat)
    requires DisjointSegments(mem) && Locate(mem, a, n).Some? && i < n
    ensures var l := Locate(mem, a, n).value;
      Wrap(a + i) == a + i && FlatByte(mem, Wrap(a + i)) == Some(mem[l.index].data[l.offset + i])
  {
    var l := Locate(mem, a, n).value;
    SelectedOffsetInBounds(mem, a);
    FlatByteOfSegment(mem, l.index, a + i);
  }

  /** The `n` flat bytes from `a` on, if all of them are mapped. */
  function FlatBytes(mem: Mem, a: Word, n: nat): Option<seq<Byte>> {
    if n == 0 then Some([])
    else
      match (FlatBytes(mem, a, n - 1), FlatByte(mem, Wrap(a + n - 1)))
      case (Some(s), Some(b)) => Some(s + [b])
      case _ => None
  }

  /** Bytes that agree one by one with the flat view are the flat bytes. */
  lemma {:induction false} FlatBytesAre(mem: Mem, a: Word, s: seq<Byte>)
    requires forall i :: 0 <= i < |s| ==> FlatByte(mem, Wrap(a + i)) == Some(s[i])
    ensures FlatBytes(mem, a, |s|) == Some(s)
  {
    if |s| > 0 {
      var init := s[..|s| - 1];
      FlatBytesAre(mem, a, init);
      assert s == init + [s[|s| - 1]];
    }
  }

  lemma FlatBytesOfLocation(mem: Mem, a: Word, n: nat)
    requires DisjointSegments(mem) && Locate(mem, a, n).Some?
    ensures var l := Locate(mem, a, n).value;
      FlatBytes(mem, a, n) == Some(mem[l.index].data[l.offset..l.offset + n])
  {
    hide FlatByte, Find, DisjointSegments, FlatBytes, Wrap;
    var l := Locate(mem, a, n).value;
    var s := mem[l.index].data[l.offset..l.offset + n];
    forall i | 0 <= i < |s| ensures FlatByte(mem, Wrap(a + i)) == Some(s[i]) {
      LocatedBytesAreFlat(mem, a, n, i);
    }
    FlatBytesAre(mem, a, s);
  }

  /** Reads refine the flat map: a read that succeeds yields the little-endian number
      written by the flat bytes of its window. */
  lemma ReadIsFlat(mem: Mem, a: Word, width: Width)
    requires DisjointSegments(mem) && Read(mem, a, width).Some?
    ensures FlatBytes(mem, a, width.Bytes()).Some?
    ensures Read(mem, a, width).value == Join(FlatBytes(mem, a, width.Bytes()).value)
  {
    FlatBytesOfLocation(mem, a, width.Bytes());
  }

  lemma WriteKeepsDisjointSegments(mem: Mem, a: Word, width: Width, v: Word)
    requires DisjointSegments(mem) && Write(mem, a, width, v).Some?
    ensures DisjointSegments(Write(mem, a, width, v).value)
  {
    hide Write;
    var mem' := Write(mem, a, width, v).value;
    forall i, j, x: Word | 0 <= i < j < |mem'|
      ensures !(Contains(mem'[i], x) && Contains(mem'[j], x))
    {
      assert !(Contains(mem[i], x) && Contains(mem[j], x));
    }
  }

  /** Writes refine the flat map: the window takes the little-endian digits of the value,
      every other address keeps its byte. */
  lemma WriteIsFlat(mem: Mem, a: Word, width: Width, v: Word, x: Word)
    requires DisjointSegments(mem) && Write(mem, a, width, v).Some?
    ensures FlatByte(Write(mem, a, width, v).value, x) ==
      if InWindow(x, a, width.Bytes()) then Some(Split(v, width.Bytes())[Wrap(x - a)])
      else FlatByte(mem, x)
  {
    var n := width.Bytes();
    var mem' := Write(mem, a, width, v).value;
    WriteKeepsDisjointSegments(mem, a, width, v);
    SameLayoutLocate(mem, mem', a, n);
    if InWindow(x, a, n) {
      WindowByte(mem', a, n, x);
    } else {
      WriteKeepsOutside(mem, a, width, v, x);
    }
  }

  /** Outside its window a write keeps every byte, whatever the layout of the segments. */
  lemma WriteKeepsOutside(mem: Mem, a: Word, width: Width, v: Word, x: Word)
    requires Write(mem, a, width, v).Some? && !InWindow(x, a, width.Bytes())
    ensures FlatByte(Write(mem, a, width, v).value, x) == FlatByte(mem, x)
  {
    var mem' := Write(mem, a, width, v).value;
    SameLayoutFind(mem, mem', x, 0);
    SelectedOffsetInBounds(mem, x);
    if Find(mem, x, 0) == Locate(mem, a, width.Bytes()).value.index {
      OutsideWindow(mem, a, width.Bytes(), x);
    }
  }

  lemma WindowByte(mem: Mem, a: Word, n: nat, x: Word)
    requires DisjointSegments(mem) && Locate(mem, a, n).Some? && InWindow(x, a, n)
    ensures var l := Locate(mem, a, n).value;
      l.offset + Wrap(x - a) < |mem[l.index].data|
      && FlatByte(mem, x) == Some(mem[l.index].data[l.offset + Wrap(x - a)])
  {
    var i := Wrap(x - a);
    LocatedBytesAreFlat(mem, a, n, i);
    assert x == a + i;
  }

  lemma OutsideWindow(mem: Mem, a: Word, n: nat, x: Word)
    requires Locate(mem, a, n).Some? && Find(mem, x, 0) == Locate(mem, a, n).value.index
    requires !InWindow(x, a, n)
    ensures var l := Locate(mem, a, n).value; !(l.offset <= x - mem[l.index].base < l.offset + n)
  {
  }
}
