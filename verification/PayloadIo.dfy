/**
 The reader and the writer over a descriptor chain, and the reply sender on top of them.
 */
module PayloadIo {
  import opened Common
  import opened PayloadModel

  /** An integer cast to 32 bits. */
  function Low32(n: nat): nat { n % U32 }

  lemma LowBits(n: nat)
    ensures Low32(n) == n % 0x1_0000_0000 && (Low32(n) == n <==> n < 0x1_0000_0000)
  {
  }

  /** Guest memory as the adapters use it: a range is accessed whole or not at all. */
  class GuestMemory {
    var bytes: Memory

    constructor (bytes: Memory)
      ensures this.bytes == bytes
    {
      this.bytes := bytes;
    }

    method ReadAt(address: nat, size: nat) returns (data: Option<seq<Byte>>)
      ensures data.Some? == Accessible(bytes, Range(address, size))
      ensures data.Some? ==> data.value == Load(bytes, Range(address, size))
    {
      data := if Accessible(bytes, Range(address, size)) then Some(Load(bytes, Range(address, size))) else None;
    }

    method WriteAt(address: nat, data: seq<Byte>) returns (ok: bool)
      modifies this
      ensures ok == Accessible(old(bytes), Range(address, |data|))
      ensures bytes == if ok then Store(old(bytes), Range(address, |data|), data) else old(bytes)
    {
      ok := Accessible(bytes, Range(address, |data|));
      if ok {
        bytes := Store(bytes, Range(address, |data|), data);
      }
    }
  }

  datatype ReadResult = Bytes(data: seq<Byte>) | Fault
  datatype ExactResult = Exactly(data: seq<Byte>) | EndOfData | FaultExact
  datatype UntilResult = More(bytes: seq<Byte>) | Found(bytes: seq<Byte>) | Invalid | FaultUntil

  /** `buffer` is what was read of `reach`, and the byte searched for is not in it. */
  predicate ReadSoFar(memory: Memory, reach: seq<nat>, buffer: seq<Byte>, byte: Byte) {
    && |buffer| <= |reach| && Accessible(memory, reach[..|buffer|])
    && buffer == Load(memory, reach[..|buffer|]) && byte !in buffer
  }

  /** How a search over `reach` may end: with the bytes before the first match; with no
      match anywhere; or with a place that cannot be accessed. */
  predicate Ends(memory: Memory, reach: seq<nat>, byte: Byte, r: UntilResult) {
    match r
    case More(_) => false
    case Found(bytes) =>
      && ReadSoFar(memory, reach, bytes, byte) && |bytes| < |reach|
      && reach[|bytes|] in memory && memory[reach[|bytes|]] == byte
    case Invalid => Accessible(memory, reach) && byte !in Load(memory, reach)
    case FaultUntil => !Accessible(memory, reach)
  }

  function RestOfSegment(c: Cursor): nat {
    if c.current.Some? && c.offset <= c.current.value.length then Left(c) else 0
  }

  lemma NothingRead(memory: Memory, reach: seq<nat>, byte: Byte)
    ensures ReadSoFar(memory, reach, [], byte)
  {
  }

  lemma ResultFits(memory: Memory, reach: seq<nat>, byte: Byte, r: UntilResult)
    requires if r.More? then ReadSoFar(memory, reach, r.bytes, byte) else Ends(memory, reach, byte, r)
    ensures r.More? ==> |r.bytes| <= |reach|
    ensures r.Found? ==> |r.bytes| < |reach|
  {
  }

  lemma ReadFits(memory: Memory, reach: seq<nat>, buffer: seq<Byte>, byte: Byte)
    requires ReadSoFar(memory, reach, buffer, byte)
    ensures |buffer| <= |reach|
  {
  }

  lemma NoneLeft(memory: Memory, reach: seq<nat>, buffer: seq<Byte>, byte: Byte)
    requires ReadSoFar(memory, reach, buffer, byte) && reach[|buffer|..] == []
    ensures Ends(memory, reach, byte, Invalid)
  {
    assert reach[..|buffer|] == reach;
  }

  lemma FaultLeft(memory: Memory, reach: seq<nat>, buffer: seq<Byte>, byte: Byte, len: nat)
    requires ReadSoFar(memory, reach, buffer, byte)
    requires !Accessible(memory, reach[|buffer|..][..Min(len, |reach[|buffer|..]|)])
    ensures Ends(memory, reach, byte, FaultUntil)
  {
    assert forall p <- reach[|buffer|..] :: p in reach;
  }

  lemma ScannedAll(memory: Memory, reach: seq<nat>, unread: seq<nat>, buffer: seq<Byte>, data: seq<Byte>, byte: Byte)
    requires reach <= unread && ReadSoFar(memory, reach, buffer, byte) && |data| <= |reach[|buffer|..]|
    requires Loaded(memory, unread[|buffer|..], data) && byte !in data[..|data|]
    ensures ReadSoFar(memory, reach, buffer + data, byte)
    ensures unread[|buffer|..][|data|..] == unread[|buffer + data|..] && reach[|buffer|..][|data|..] == reach[|buffer + data|..]
  {
    Continues(memory, reach, unread, |buffer|, data, |data|);
    assert data[..|data|] == data;
  }

  lemma FirstMatch(memory: Memory, reach: seq<nat>, unread: seq<nat>, buffer: seq<Byte>, data: seq<Byte>, byte: Byte, k: nat)
    requires reach <= unread && ReadSoFar(memory, reach, buffer, byte) && |data| <= |reach[|buffer|..]|
    requires Loaded(memory, unread[|buffer|..], data)
    requires k < |data| && byte !in data[..k] && data[k] == byte
    ensures Ends(memory, reach, byte, Found(buffer + data[..k]))
    ensures |buffer| + k + 1 <= |reach|
    ensures unread[|buffer|..][k + 1..] == unread[|buffer| + k + 1..] && reach[|buffer|..][k + 1..] == reach[|buffer| + k + 1..]
  {
    Continues(memory, reach, unread, |buffer|, data, k);
    Continues(memory, reach, unread, |buffer|, data, k + 1);
    var next := unread[|buffer|..][..|data|];
    assert next[k] == reach[|buffer| + k] && next[k] in next;
  }

  /** Where the cursor is when it is put back to `k + 1` bytes after `start`. */
  lemma RewoundPlaces(chain: seq<Segment>, places: seq<nat>, start: Cursor, k: nat)
    requires Wellformed(start, false) && start.current.Some? && k < Left(start)
    requires OnChain(chain, Moved(start, Left(start))) && Suffix(Ahead(start, false), places)
    ensures Wellformed(Moved(start, k + 1), false) && OnChain(chain, Moved(start, k + 1))
    ensures |Ahead(start, false)| > k && |Visible(start, false)| > k
    ensures Ahead(Moved(start, k + 1), false) == Ahead(start, false)[k + 1..]
    ensures Visible(Moved(start, k + 1), false) == Visible(start, false)[k + 1..]
    ensures Suffix(Ahead(start, false)[k + 1..], places)
    ensures Wellformed(Moved(start, Left(start)), false)
    ensures |Ahead(Moved(start, Left(start)), false)| == |Ahead(start, false)| - Left(start)
  {
    MovedPlaces(start, false, k + 1);
    MovedPlaces(start, false, Left(start));
    SuffixDrops(Ahead(start, false), places, k + 1);
  }

  /** The next `size` places of the current segment, and where the cursor is after them. */
  lemma HerePlaces(chain: seq<Segment>, places: seq<nat>, c: Cursor, size: nat)
    requires Wellformed(c, false) && OnChain(chain, c) && c.current.Some? && size <= Left(c) && Suffix(Ahead(c, false), places)
    ensures Wellformed(Moved(c, size), false) && OnChain(chain, Moved(c, size))
    ensures size <= |Ahead(c, false)| && size <= |Visible(c, false)|
    ensures Ahead(c, false)[..size] == Visible(c, false)[..size] == Range(c.current.value.address + c.offset, size)
    ensures Ahead(Moved(c, size), false) == Ahead(c, false)[size..] && Visible(Moved(c, size), false) == Visible(c, false)[size..]
    ensures Suffix(Ahead(c, false)[size..], places)
  {
    hide Ahead, Visible, Suffix, Here, Range, Selected, Unbroken;
    MovedPlaces(c, false, size);
    SuffixDrops(Ahead(c, false), places, size);
  }

  lemma FaultIsHere(memory: Memory, c: Cursor, size: nat)
    requires c.current.Some? && c.offset <= c.current.value.length && size <= Left(c)
    requires !Accessible(memory, Range(c.current.value.address + c.offset, size))
    ensures FaultyHere(memory, c)
  {
    assert Here(c)[..size] == Range(c.current.value.address + c.offset, size);
    assert forall p <- Here(c)[..size] :: p in Here(c);
  }

  /** The rest of the current segment cannot all be accessed. */
  predicate FaultyHere(memory: Memory, c: Cursor) {
    c.current.Some? && c.offset <= c.current.value.length && !Accessible(memory, Here(c))
  }

  /** The search stopped after `before`, which does not contain the byte. */
  predicate StoppedAfter(memory: Memory, reach: seq<nat>, unread: seq<nat>, byte: Byte, before: seq<Byte>, left: seq<nat>) {
    ReadSoFar(memory, reach, before, byte) && |before| <= |unread| && left == unread[|before|..]
  }

  lemma Stopped(memory: Memory, reach: seq<nat>, unread: seq<nat>, byte: Byte, before: seq<Byte>, left: seq<nat>)
    requires ReadSoFar(memory, reach, before, byte) && |before| <= |unread| && left == unread[|before|..]
    ensures StoppedAfter(memory, reach, unread, byte, before, left)
  {
  }

  class PayloadReader {
    const memory: GuestMemory
    const length: nat
    var cursor: Cursor
    var position: nat
    ghost const chain: seq<Segment>
    ghost const places: seq<nat>
    ghost var rewound: nat

    /** The unread places are a suffix of the selected ones, and `position` counts what was
        read, rewound bytes included. */
    ghost predicate Valid()
      reads this
    {
      && Wellformed(cursor, false) && OnChain(chain, cursor) && length == |places|
      && position + |Ahead(cursor, false)| == |places| + rewound
      && Suffix(Ahead(cursor, false), places)
    }

    ghost function Unread(): seq<nat>
      reads this
      requires Valid()
    {
      Ahead(cursor, false)
    }

    /** The part of the unread places that can be read before an empty segment. */
    ghost function Reach(): seq<nat>
      reads this
      requires Valid()
    {
      Visible(cursor, false)
    }

    constructor (memory: GuestMemory, chain: seq<Segment>)
      ensures Valid() && this.memory == memory && this.chain == chain && rewound == 0
      ensures places == Unread() == Selected(chain, false)
      ensures Reach() == FirstReach(chain, false)
      ensures Reach() == Unread() <==> !Gap(AfterFirst(chain, false), false)
    {
      this.memory := memory;
      this.chain := chain;
      places := Selected(chain, false);
      length := |Selected(chain, false)|;
      var current, rest := NextPayload(chain, false);
      cursor := Cursor(rest, current, 0);
      position, rewound := 0, 0;
      WalkSeesAllUnlessGap(chain, false);
    }

    /** Bytes left in the current segment, moving on first if it is used up. */
    method CurrentRemaining() returns (len: nat)
      requires Valid()
      modifies this`cursor
      ensures Valid() && Unread() == old(Unread()) && (len == 0 <==> old(Reach()) == [])
      ensures len > 0 ==> cursor.current.Some? && Reach() == old(Reach())
      ensures len == if cursor.current.Some? then Left(cursor) else 0
      ensures old(cursor).current.Some? && Left(old(cursor)) > 0 ==> cursor == old(cursor)
    {
      hide Ahead, Visible;
      cursor := GetPayload(cursor, false, chain);
      len := if cursor.current.Some? then Left(cursor) else 0;
    }

    /** Read `size` bytes of the current segment. */
    method ReadHere(size: nat) returns (r: ReadResult)
      requires Valid() && cursor.current.Some? && size <= Left(cursor)
      modifies this`cursor, this`position
      ensures Valid() && size <= |old(Reach())| && size <= |old(Unread())|
      ensures r.Fault? ==>
        && !Accessible(memory.bytes, old(Reach())[..size]) && FaultyHere(memory.bytes, cursor)
        && cursor == old(cursor) && position == old(position)
      ensures r.Bytes? ==>
        && |r.data| == size && position == old(position) + size && cursor == Moved(old(cursor), size)
        && Accessible(memory.bytes, old(Unread())[..size]) && r.data == Load(memory.bytes, old(Unread())[..size])
        && Unread() == old(Unread())[size..] && Reach() == old(Reach())[size..]
    {
      hide FaultyHere, Ahead, Visible, Suffix, OnChain, Here, Range, Selected, Unbroken, Accessible, Load;
      HerePlaces(chain, places, cursor, size);
      var data := memory.ReadAt(cursor.current.value.address + cursor.offset, size);
      if data.None? {
        FaultIsHere(memory.bytes, cursor, size);
        return Fault;
      }
      cursor := Moved(cursor, size);
      position := position + size;
      return Bytes(data.value);
    }

    /** Read up to `want` bytes, at most to the end of the current segment: the next ones of
        the unread places. Nothing for a non-empty buffer means that nothing is in reach. */
    method Read(want: nat) returns (r: ReadResult)
      requires Valid()
      modifies this`cursor, this`position
      ensures Valid()
      ensures r.Fault? ==>
        && !Accessible(memory.bytes, old(Reach())[..Min(want, |old(Reach())|)])
        && Unread() == old(Unread()) && position == old(position)
        && FaultyHere(memory.bytes, cursor)
      ensures r.Bytes? ==>
        && |r.data| <= want && |r.data| <= |old(Unread())| && position == old(position) + |r.data|
        && Loaded(memory.bytes, old(Unread()), r.data) && Unread() == old(Unread())[|r.data|..]
        && (want > 0 ==> (r.data == [] <==> old(Reach()) == []))
        && (old(Reach()) != [] ==> |r.data| <= |old(Reach())| && Reach() == old(Reach())[|r.data|..])
      ensures r.Bytes? && old(cursor).current.Some? && Left(old(cursor)) > 0 ==>
        |r.data| == Min(Left(old(cursor)), want) && cursor == Moved(old(cursor), |r.data|)
      ensures r.Bytes? && old(Reach()) != [] ==>
        cursor.current.Some? && |r.data| <= cursor.offset && |r.data| == Min(|r.data| + Left(cursor), want)
    {
      hide Ahead, Visible, Suffix, OnChain, Accessible, Load;
      var len := CurrentRemaining();
      if len == 0 {
        NothingLoaded(memory.bytes, old(Unread()));
        return Bytes([]);
      }
      r := ReadHere(Min(len, want));
      if r.Fault? {
        FaultWithin(memory.bytes, old(Reach()), Min(len, want), want);
      }
    }

    /** Put the cursor back to `k + 1` bytes after `start`. `position` is not put back. */
    method Rewind(start: Cursor, k: nat)
      requires Valid() && Wellformed(start, false) && start.current.Some? && k < Left(start)
      requires cursor == Moved(start, Left(start)) && Suffix(Ahead(start, false), places)
      modifies this`cursor, this`rewound
      ensures Valid() && |Ahead(start, false)| > k && |Visible(start, false)| > k
      ensures Unread() == Ahead(start, false)[k + 1..] && Reach() == Visible(start, false)[k + 1..]
      ensures rewound == old(rewound) + RestOfSegment(cursor)
    {
      hide Ahead, Visible, Suffix, OnChain, Wellformed, Here, Range, Selected, Unbroken;
      RewoundPlaces(chain, places, start, k);
      cursor := cursor.(offset := start.offset + k + 1);
      rewound := rewound + Left(start) - (k + 1);
    }

    /** One turn of the search: read the rest of the current segment and look for `byte`. */
    method Scan(byte: Byte, buffer: seq<Byte>, ghost reach: seq<nat>, ghost unread: seq<nat>) returns (r: UntilResult)
      requires Valid() && reach <= unread && ReadSoFar(memory.bytes, reach, buffer, byte)
      requires Unread() == unread[|buffer|..] && Reach() == reach[|buffer|..]
      modifies this`cursor, this`position, this`rewound
      ensures Valid()
      ensures r.More? ==>
        && |buffer| < |r.bytes| && ReadSoFar(memory.bytes, reach, r.bytes, byte)
        && Unread() == unread[|r.bytes|..] && Reach() == reach[|r.bytes|..]
      ensures !r.More? ==> Ends(memory.bytes, reach, byte, r)
      ensures r.Found? ==> Unread() == unread[|r.bytes| + 1..] && Reach() == reach[|r.bytes| + 1..]
      ensures r.FaultUntil? ==> Unread() == old(Unread()) && FaultyHere(memory.bytes, cursor)
      ensures rewound == old(rewound) + if r.Found? then RestOfSegment(cursor) else 0
    {
      hide FaultyHere, Here, Ahead, Visible, Suffix, OnChain, ReadSoFar, Ends, Load, Accessible;
      ReadFits(memory.bytes, reach, buffer, byte);
      var len := CurrentRemaining();
      if len == 0 {
        NoneLeft(memory.bytes, reach, buffer, byte);
        return Invalid;
      }
      var start := cursor;
      var part := Read(len);
      if part.Fault? {
        FaultLeft(memory.bytes, reach, buffer, byte, len);
        return FaultUntil;
      }
      assert |part.data| == len;
      var k := FindByte(part.data, byte);
      if k == len {
        ScannedAll(memory.bytes, reach, unread, buffer, part.data, byte);
        return More(buffer + part.data);
      }
      FirstMatch(memory.bytes, reach, unread, buffer, part.data, byte, k);
      Rewind(start, k);
      r := Found(buffer + part.data[..k]);
    }

    /** The bytes before the first `byte`, leaving the cursor just past it. Fails as invalid
        exactly when the byte is not in reach. A fault is in the segment the cursor is left on,
        and the byte is not before that segment. */
    method ReadUntil(byte: Byte) returns (r: UntilResult)
      requires Valid()
      modifies this`cursor, this`position, this`rewound
      ensures Valid() && old(Reach()) <= old(Unread())
      ensures Ends(memory.bytes, old(Reach()), byte, r)
      ensures r.Found? ==>
        Unread() == old(Unread())[|r.bytes| + 1..] && Reach() == old(Reach())[|r.bytes| + 1..]
      ensures r.FaultUntil? ==>
        && FaultyHere(memory.bytes, cursor)
        && exists before :: StoppedAfter(memory.bytes, old(Reach()), old(Unread()), byte, before, Unread())
      ensures rewound == old(rewound) + if r.Found? then RestOfSegment(cursor) else 0
    {
      VisibleIsAhead(cursor, false);
      ghost var unread, reach := Unread(), Reach();
      hide *;
      r := More([]);
      ghost var before: seq<Byte> := [];
      NothingRead(memory.bytes, reach, byte);
      assert unread[0..] == unread && reach[0..] == reach;
      while r.More?
        invariant Valid()
        invariant r.More? ==>
          ReadSoFar(memory.bytes, reach, r.bytes, byte) && |r.bytes| <= |reach| <= |unread|
          && Unread() == unread[|r.bytes|..] && Reach() == reach[|r.bytes|..]
        invariant !r.More? ==> Ends(memory.bytes, reach, byte, r)
        invariant rewound == old(rewound) + if r.Found? then RestOfSegment(cursor) else 0
        invariant r.Found? ==> |r.bytes| < |reach| && Unread() == unread[|r.bytes| + 1..] && Reach() == reach[|r.bytes| + 1..]
        invariant r.FaultUntil? ==>
          && FaultyHere(memory.bytes, cursor)
          && StoppedAfter(memory.bytes, reach, unread, byte, before, Unread())
        decreases if r.More? then 1 + |reach| - |r.bytes| else 0
      {
        before := r.bytes;
        r := Scan(byte, r.bytes, reach, unread);
        ResultFits(memory.bytes, reach, byte, r);
        if r.FaultUntil? {
          Stopped(memory.bytes, reach, unread, byte, before, Unread());
        }
      }
    }

    /** Any sequence of buffer sizes: successive reads return consecutive parts of what was
        unread. A non-empty buffer stays empty only at the end of the reach, and the run is cut
        short only by a place that cannot be accessed. */
    method Gather(sizes: seq<nat>) returns (parts: seq<seq<Byte>>, ok: bool)
      requires Valid()
      modifies this`cursor, this`position
      ensures Valid() && |parts| <= |sizes| && (ok <==> |parts| == |sizes|)
      ensures forall i :: 0 <= i < |parts| ==> |parts[i]| <= sizes[i]
      ensures EmptyOnlyAtEnd(old(Reach()), sizes, parts)
      ensures |Concat(parts)| <= |old(Unread())| && Accessible(memory.bytes, old(Unread())[..|Concat(parts)|])
      ensures Concat(parts) == Load(memory.bytes, old(Unread())[..|Concat(parts)|])
      ensures Unread() == old(Unread())[|Concat(parts)|..] && position == old(position) + |Concat(parts)|
      ensures !ok ==> !Accessible(memory.bytes, old(Unread()))
      ensures !ok && |Concat(parts)| < |old(Reach())| ==> !Accessible(memory.bytes, old(Reach()))
    {
      VisibleIsAhead(cursor, false);
      ghost var unread, reach := Unread(), Reach();
      hide *;
      parts, ok := [], true;
      NothingGathered(memory.bytes, reach, unread, sizes);
      while ok && |parts| < |sizes|
        invariant Valid() && |parts| <= |sizes| && (!ok ==> |parts| < |sizes|)
        invariant Slices(memory.bytes, reach, unread, sizes, parts, Unread())
        invariant if ok then InReach(reach, parts, Reach()) else Interrupted(memory.bytes, reach, unread, parts)
        invariant position == old(position) + |Concat(parts)|
        decreases ok, |sizes| - |parts|
      {
        parts, ok := GatherNext(sizes, parts, reach, unread);
      }
      SlicesMean(memory.bytes, reach, unread, sizes, parts, Unread());
      if !ok {
        InterruptedMeans(memory.bytes, reach, unread, parts);
      }
    }

    /** One more read. */
    method GatherNext(sizes: seq<nat>, parts: seq<seq<Byte>>, ghost reach: seq<nat>, ghost unread: seq<nat>) returns (parts': seq<seq<Byte>>, ok: bool)
      requires Valid() && |parts| < |sizes|
      requires Slices(memory.bytes, reach, unread, sizes, parts, Unread()) && InReach(reach, parts, Reach())
      modifies this`cursor, this`position
      ensures Valid() && |parts'| == |parts| + (if ok then 1 else 0)
      ensures Slices(memory.bytes, reach, unread, sizes, parts', Unread())
      ensures if ok then InReach(reach, parts', Reach()) else Interrupted(memory.bytes, reach, unread, parts')
      ensures position - |Concat(parts')| == old(position) - |Concat(parts)|
    {
      PrefixReach();
      hide *;
      ghost var ahead, left := Reach(), Unread();
      var part := Read(sizes[|parts|]);
      ok := part.Bytes?;
      if ok {
        if part.data == [] && sizes[|parts|] > 0 {
          ReachEnds(reach, parts, ahead);
        }
        GatherMore(memory.bytes, reach, unread, sizes, parts, left, part.data, Unread());
        ReachMore(reach, parts, ahead, part.data, Reach());
        parts' := parts + [part.data];
      } else {
        GatherStops(memory.bytes, reach, unread, sizes, parts, ahead, left, Min(sizes[|parts|], |ahead|));
        parts' := parts;
      }
    }

    lemma PrefixReach()
      requires Valid()
      ensures Reach() <= Unread()
    {
      VisibleIsAhead(cursor, false);
    }

    /** Exactly `n` bytes, in as many reads as it takes. */
    method ReadExact(n: nat) returns (r: ExactResult)
      requires Valid()
      modifies this`cursor, this`position
      ensures Valid()
      ensures old(Reach()) <= old(Unread())
      ensures r.Exactly? ==> |r.data| == n <= |old(Reach())| && Loaded(memory.bytes, old(Reach()), r.data)
      ensures r.Exactly? ==> Unread() == old(Unread())[n..] && Reach() == old(Reach())[n..]
      ensures r.EndOfData? ==> |old(Reach())| < n && Unread() == old(Unread())[|old(Reach())|..]
      ensures r.FaultExact? ==> !Accessible(memory.bytes, old(Reach())[..Min(n, |old(Reach())|)])
    {
      PrefixReach();
      ghost var reach, unread := Reach(), Unread();
      hide *;
      var data := [];
      r := Exactly([]);
      NothingReadOn(memory.bytes, reach, unread);
      while r.Exactly? && |data| < n
        invariant Valid() && |data| <= n
        invariant r.Exactly? ==> ReadOn(memory.bytes, reach, unread, data, Reach(), Unread())
        invariant r.EndOfData? ==> |reach| < n && |reach| <= |unread| && Unread() == unread[|reach|..]
        invariant r.FaultExact? ==> !Accessible(memory.bytes, reach[..Min(n, |reach|)])
        decreases r.Exactly?, n - |data|
      {
        PrefixReach();
        ghost var ahead, left := Reach(), Unread();
        var part := Read(n - |data|);
        if part.Fault? {
          ReadOnFaults(memory.bytes, reach, unread, data, ahead, left, n);
          r := FaultExact;
        } else if part.data == [] {
          ReadOnEnds(memory.bytes, reach, unread, data, ahead, left);
          r := EndOfData;
        } else {
          ReadOnMore(memory.bytes, reach, unread, data, ahead, left, part.data, Reach(), Unread());
          data := data + part.data;
        }
      }
      if r.Exactly? {
        ReadOnMeans(memory.bytes, reach, unread, data, Reach(), Unread());
        r := Exactly(data);
      }
    }

    /** The original's answer to how many bytes are left, as 64-bit arithmetic gives it: off
        by exactly the bytes that `ReadUntil` rewound. */
    method RemainingLen() returns (len: nat)
      requires Valid()
      ensures len == (|Unread()| - rewound) % U64
      ensures rewound == 0 && |Unread()| < U64 ==> len == |Unread()|
      ensures 0 < rewound < U64 && |Unread()| < U64 ==> len != |Unread()|
    {
      hide Ahead, Suffix, Wellformed;
      len := (length - position) % U64;
    }
  }

  datatype WriteResult = Wrote(count: nat) | FaultWrite
  datatype SendResult = Sent | TooLong | FaultSend

  /** The first `k` bytes of `data` have been stored at the first `k` places of `reach`, and
      nothing else has changed. */
  ghost predicate Stored(was: Memory, now: Memory, reach: seq<nat>, data: seq<Byte>, k: nat) {
    k <= |data| && k <= |reach| && Accessible(was, reach[..k]) && now == Store(was, reach[..k], data[..k])
  }

  lemma StoredNothing(was: Memory, reach: seq<nat>, data: seq<Byte>)
    ensures Stored(was, was, reach, data, 0) && reach[0..] == reach && data[0..] == data
  {
  }

  lemma StoredMore(was: Memory, mid: Memory, now: Memory, reach: seq<nat>, data: seq<Byte>, k: nat, n: nat)
    requires Stored(was, mid, reach, data, k) && Stored(mid, now, reach[k..], data[k..], n)
    ensures k + n <= |data| && k + n <= |reach| && Stored(was, now, reach, data, k + n)
    ensures reach[k..][n..] == reach[k + n..] && data[k..][n..] == data[k + n..]
  {
    assert reach[..k + n] == reach[..k] + reach[k..][..n] && data[..k + n] == data[..k] + data[k..][..n];
    assert Accessible(was, reach[k..][..n]);
    StoreConcat(was, reach[..k], data[..k], reach[k..][..n], data[k..][..n]);
  }

  /** What a write to the current segment amounts to. An empty segment takes nothing. */
  lemma StoredHere(was: Memory, c: Cursor, reach: seq<nat>, buf: seq<Byte>, size: nat)
    requires Wellformed(c, true) && c.current.Some? && size == Min(Left(c), |buf|)
    requires Accessible(was, Range(c.current.value.address + c.offset, size))
    requires Left(c) > 0 ==> reach == Visible(c, true)
    ensures Wellformed(Moved(c, size), true)
    ensures Stored(was, Store(was, Range(c.current.value.address + c.offset, size), buf[..size]), reach, buf, size)
    ensures Left(c) > 0 ==> size <= |reach| && Visible(Moved(c, size), true) == reach[size..]
  {
    MovedPlaces(c, true, size);
  }

  lemma FaultHere(was: Memory, c: Cursor, reach: seq<nat>, buf: seq<Byte>, size: nat)
    requires Wellformed(c, true) && c.current.Some? && size == Min(Left(c), |buf|)
    requires !Accessible(was, Range(c.current.value.address + c.offset, size))
    requires Left(c) > 0 ==> reach == Visible(c, true)
    ensures !Accessible(was, reach[..Min(|buf|, |reach|)])
  {
    MovedPlaces(c, true, size);
    assert forall p <- reach[..size] :: p in reach[..Min(|buf|, |reach|)];
  }

  /** What writing a whole buffer does, with `reach` the places before and `ahead` those
      after: all of it is stored, or all that fits, or what precedes a fault. */
  ghost predicate WroteAll(was: Memory, now: Memory, reach: seq<nat>, ahead: seq<nat>, buf: seq<Byte>, r: SendResult, written: nat) {
    && Stored(was, now, reach, buf, written)
    && match r
       case Sent => written == |buf| <= |reach| && ahead == reach[written..]
       case TooLong => written == |reach| < |buf|
       case FaultSend => !Accessible(was, reach[..Min(|buf|, |reach|)])
  }

  class PayloadWriter {
    const memory: GuestMemory
    var cursor: Cursor
    ghost const chain: seq<Segment>

    ghost predicate Valid()
      reads this
    {
      Wellformed(cursor, true) && OnChain(chain, cursor)
    }

    ghost function Reach(): seq<nat>
      reads this
      requires Valid()
    {
      Visible(cursor, true)
    }

    constructor (memory: GuestMemory, chain: seq<Segment>)
      ensures Valid() && this.memory == memory && this.chain == chain && Reach() == FirstReach(chain, true)
    {
      this.memory := memory;
      this.chain := chain;
      var current, rest := NextPayload(chain, true);
      cursor := Cursor(rest, current, 0);
    }

    /** Write at most to the end of the current segment. */
    method Write(buf: seq<Byte>) returns (r: WriteResult)
      requires Valid()
      modifies this`cursor, memory
      ensures Valid()
      ensures r.Wrote? ==>
        && Stored(old(memory.bytes), memory.bytes, old(Reach()), buf, r.count)
        && (buf != [] ==> (r.count == 0 <==> old(Reach()) == []))
        && (old(Reach()) != [] ==> r.count <= |old(Reach())| && Reach() == old(Reach())[r.count..])
      ensures r.Wrote? && old(Reach()) != [] ==>
        cursor.current.Some? && r.count <= cursor.offset && r.count == Min(r.count + Left(cursor), |buf|)
      ensures r.FaultWrite? ==>
        memory.bytes == old(memory.bytes) && !Accessible(memory.bytes, old(Reach())[..Min(|buf|, |old(Reach())|)])
    {
      hide Visible, Ahead, Stored, Accessible, Store, Load;
      ghost var reach := Reach();
      var c := GetPayload(cursor, true, chain);
      cursor := c;
      if c.current.None? {
        StoredNothing(memory.bytes, reach, buf);
        return Wrote(0);
      }
      var size := Min(Left(c), |buf|);
      var was := memory.bytes;
      var ok := memory.WriteAt(c.current.value.address + c.offset, buf[..size]);
      if !ok {
        FaultHere(was, c, reach, buf, size);
        return FaultWrite;
      }
      StoredHere(was, c, reach, buf, size);
      cursor := Moved(c, size);
      r := Wrote(size);
    }

    /** Write everything or report how it failed; `written` bytes went out either way. */
    method WriteAll(buf: seq<Byte>) returns (r: SendResult, ghost written: nat)
      requires Valid()
      modifies this`cursor, memory
      ensures Valid() && WroteAll(old(memory.bytes), memory.bytes, old(Reach()), Reach(), buf, r, written)
    {
      ghost var reach, was := Reach(), memory.bytes;
      hide *;
      r, written := Sent, 0;
      var rest := buf;
      NothingWritten(was, reach, buf);
      while r.Sent? && rest != []
        invariant Valid() && Writing(was, memory.bytes, reach, Reach(), buf, rest, r, written)
        decreases r.Sent?, |rest|
      {
        r, rest, written := WriteNext(buf, rest, was, reach, written);
      }
      WritingEnds(was, memory.bytes, reach, Reach(), buf, rest, r, written);
    }

    /** One turn of the loop: write some of the rest. */
    method WriteNext(ghost buf: seq<Byte>, rest: seq<Byte>, ghost was: Memory, ghost reach: seq<nat>, ghost n: nat)
      returns (r: SendResult, rest': seq<Byte>, ghost written: nat)
      requires Valid() && rest != [] && Writing(was, memory.bytes, reach, Reach(), buf, rest, Sent, n)
      modifies this`cursor, memory
      ensures Valid() && Writing(was, memory.bytes, reach, Reach(), buf, rest', r, written)
      ensures r.Sent? ==> |rest'| < |rest|
    {
      hide *;
      ghost var mid, ahead := memory.bytes, Reach();
      var w := Write(rest);
      if w.FaultWrite? {
        WritingFaults(was, mid, reach, ahead, buf, rest, n, Reach());
        return FaultSend, rest, n;
      }
      WroteFits(mid, memory.bytes, ahead, rest, w.count);
      if w.count == 0 {
        WritingStuck(was, mid, memory.bytes, reach, ahead, buf, rest, n, Reach());
        return TooLong, rest, n;
      }
      WritingMore(was, mid, memory.bytes, reach, ahead, buf, rest, n, w.count, Reach());
      return Sent, rest[w.count..], n + w.count;
    }
  }

  /** The state of a write: `written` bytes of `buf` are out and `rest` is to come. */
  ghost predicate Writing(was: Memory, now: Memory, reach: seq<nat>, ahead: seq<nat>, buf: seq<Byte>, rest: seq<Byte>, r: SendResult, written: nat) {
    && Stored(was, now, reach, buf, written) && rest == buf[written..]
    && match r
       case Sent => ahead == reach[written..]
       case TooLong => written == |reach| < |buf|
       case FaultSend => !Accessible(was, reach[..Min(|buf|, |reach|)])
  }

  lemma NothingWritten(was: Memory, reach: seq<nat>, buf: seq<Byte>)
    ensures Writing(was, was, reach, reach, buf, buf, Sent, 0)
  {
    StoredNothing(was, reach, buf);
  }

  lemma WritingEnds(was: Memory, now: Memory, reach: seq<nat>, ahead: seq<nat>, buf: seq<Byte>, rest: seq<Byte>, r: SendResult, written: nat)
    requires Writing(was, now, reach, ahead, buf, rest, r, written) && (r.Sent? ==> rest == [])
    ensures WroteAll(was, now, reach, ahead, buf, r, written)
  {
  }

  lemma WroteFits(mid: Memory, now: Memory, ahead: seq<nat>, rest: seq<Byte>, count: nat)
    requires Stored(mid, now, ahead, rest, count)
    ensures count <= |rest| && count <= |ahead| && (count == 0 ==> now == mid)
  {
  }

  lemma WritingMore(was: Memory, mid: Memory, now: Memory, reach: seq<nat>, ahead: seq<nat>, buf: seq<Byte>, rest: seq<Byte>,
                    n: nat, count: nat, ahead': seq<nat>)
    requires Writing(was, mid, reach, ahead, buf, rest, Sent, n) && Stored(mid, now, ahead, rest, count)
    requires count <= |rest| && count <= |ahead| && ahead' == ahead[count..]
    ensures Writing(was, now, reach, ahead', buf, rest[count..], Sent, n + count)
  {
    StoredMore(was, mid, now, reach, buf, n, count);
  }

  lemma WritingStuck(was: Memory, mid: Memory, now: Memory, reach: seq<nat>, ahead: seq<nat>, buf: seq<Byte>, rest: seq<Byte>, n: nat, ahead': seq<nat>)
    requires Writing(was, mid, reach, ahead, buf, rest, Sent, n) && rest != [] && ahead == [] && now == mid
    ensures Writing(was, now, reach, ahead', buf, rest, TooLong, n)
  {
  }

  lemma WritingFaults(was: Memory, mid: Memory, reach: seq<nat>, ahead: seq<nat>, buf: seq<Byte>, rest: seq<Byte>, n: nat, ahead': seq<nat>)
    requires Writing(was, mid, reach, ahead, buf, rest, Sent, n) && !Accessible(mid, ahead[..Min(|rest|, |ahead|)])
    ensures Writing(was, mid, reach, ahead', buf, rest, FaultSend, n)
  {
    FaultIsAhead(was, mid, reach, buf, n);
  }

  /** The reply sender of one work item. */
  class PayloadReplySender {
    const memory: GuestMemory
    const chain: seq<Segment>
    var bytesWritten: nat

    constructor (memory: GuestMemory, chain: seq<Segment>)
      ensures this.memory == memory && this.chain == chain && bytesWritten == 0
    {
      this.memory, this.chain, bytesWritten := memory, chain, 0;
    }

    /** Scatter the buffers, back to back, over the writable places. `written` bytes of them
        reach the guest: all of them, or all that fit, or those before a fault. The count is
        recorded, in 32 bits, only when all of them went out. */
    method Send(bufs: seq<seq<Byte>>) returns (r: SendResult, ghost written: nat)
      modifies this`bytesWritten, memory
      ensures Stored(old(memory.bytes), memory.bytes, FirstReach(chain, true), Concat(bufs), written)
      ensures r.Sent? ==> written == |Concat(bufs)| && bytesWritten == |Concat(bufs)| % 0x1_0000_0000
      ensures r.Sent? ==> (bytesWritten == |Concat(bufs)| <==> |Concat(bufs)| < 0x1_0000_0000)
      ensures r.TooLong? ==> written == |FirstReach(chain, true)| < |Concat(bufs)|
      ensures r.FaultSend? <==> Blocked(old(memory.bytes), FirstReach(chain, true), Concat(bufs))
      ensures !r.FaultSend? ==> (r.Sent? <==> |Concat(bufs)| <= |FirstReach(chain, true)|)
      ensures !r.Sent? ==> bytesWritten == old(bytesWritten)
    {
      hide *;
      var writer := new PayloadWriter(memory, chain);
      var size;
      r, size, written := SendAll(writer, bufs);
      if r.Sent? {
        bytesWritten := Low32(size);
        LowBits(size);
      }
    }

    /** One turn of the loop over the buffers. */
    method SendNext(writer: PayloadWriter, bufs: seq<seq<Byte>>, i: nat, ghost was: Memory, ghost reach: seq<nat>, ghost n: nat)
      returns (r: SendResult, ghost written: nat)
      requires writer.Valid() && writer.memory == memory && i < |bufs|
      requires Sending(was, memory.bytes, reach, writer.Reach(), bufs, i, Sent, n)
      modifies writer`cursor, memory
      ensures writer.Valid() && Sending(was, memory.bytes, reach, writer.Reach(), bufs, i + 1, r, written)
      ensures r.Sent? ==> written == n + |bufs[i]|
    {
      hide *;
      ghost var mid, ahead := memory.bytes, writer.Reach();
      r, written := writer.WriteAll(bufs[i]);
      BufferSent(was, mid, memory.bytes, reach, ahead, writer.Reach(), bufs, i, n, r, written);
      written := n + written;
    }

    /** Every buffer in turn, up to the first that fails. */
    method SendAll(writer: PayloadWriter, bufs: seq<seq<Byte>>) returns (r: SendResult, size: nat, ghost written: nat)
      requires writer.Valid() && writer.memory == memory
      modifies writer`cursor, memory
      ensures Stored(old(memory.bytes), memory.bytes, old(writer.Reach()), Concat(bufs), written)
      ensures r.Sent? ==> size == written == |Concat(bufs)| <= |old(writer.Reach())|
      ensures r.TooLong? ==> written == |old(writer.Reach())| < |Concat(bufs)|
      ensures r.FaultSend? <==> Blocked(old(memory.bytes), old(writer.Reach()), Concat(bufs))
    {
      ghost var reach, was := writer.Reach(), memory.bytes;
      hide *;
      var i := 0;
      r, size, written := Sent, 0, 0;
      NothingSent(was, reach, bufs);
      while r.Sent? && i < |bufs|
        invariant writer.Valid() && 0 <= i <= |bufs| && (r.Sent? ==> size == written)
        invariant Sending(was, memory.bytes, reach, writer.Reach(), bufs, i, r, written)
        decreases r.Sent?, |bufs| - i
      {
        r, written := SendNext(writer, bufs, i, was, reach, written);
        size := size + |bufs[i]|;
        i := i + 1;
      }
      SendingEnds(was, memory.bytes, reach, writer.Reach(), bufs, i, r, written);
    }
  }

  /** The state of a reply after `i` buffers. */
  ghost predicate Sending(was: Memory, now: Memory, reach: seq<nat>, ahead: seq<nat>, bufs: seq<seq<Byte>>, i: nat, r: SendResult, written: nat) {
    && i <= |bufs| && Stored(was, now, reach, Concat(bufs), written)
    && match r
       case Sent => written == |Concat(bufs[..i])| <= |reach| && ahead == reach[written..]
       case TooLong => written == |reach| < |Concat(bufs)|
       case FaultSend => Blocked(was, reach, Concat(bufs))
  }

  /** Some place the data would go to cannot be accessed. */
  predicate Blocked(memory: Memory, reach: seq<nat>, data: seq<Byte>) {
    !Accessible(memory, reach[..Min(|data|, |reach|)])
  }

  lemma NothingSent(was: Memory, reach: seq<nat>, bufs: seq<seq<Byte>>)
    ensures Sending(was, was, reach, reach, bufs, 0, Sent, 0)
  {
  }

  lemma SendingEnds(was: Memory, now: Memory, reach: seq<nat>, ahead: seq<nat>, bufs: seq<seq<Byte>>, i: nat, r: SendResult, written: nat)
    requires Sending(was, now, reach, ahead, bufs, i, r, written) && (r.Sent? ==> i == |bufs|)
    ensures Stored(was, now, reach, Concat(bufs), written)
    ensures r.Sent? ==> written == |Concat(bufs)| <= |reach|
    ensures r.TooLong? ==> written == |reach| < |Concat(bufs)|
    ensures r.FaultSend? <==> Blocked(was, reach, Concat(bufs))
  {
    assert bufs[..|bufs|] == bufs;
  }

  /** Buffer `i` starts where the buffers before it end. */
  lemma {:induction false} ConcatSplits(bufs: seq<seq<Byte>>, i: nat)
    requires i < |bufs|
    ensures |Concat(bufs[..i + 1])| == |Concat(bufs[..i])| + |bufs[i]| <= |Concat(bufs)|
    ensures Concat(bufs)[|Concat(bufs[..i])|..][..|bufs[i]|] == bufs[i]
    decreases |bufs|
  {
    assert bufs[..i + 1][..i] == bufs[..i];
    var front := bufs[..|bufs| - 1];
    if i < |front| {
      ConcatSplits(front, i);
      assert front[..i] == bufs[..i] && front[..i + 1] == bufs[..i + 1];
      var p := |Concat(bufs[..i])|;
      assert Concat(bufs)[p..][..|bufs[i]|] == Concat(front)[p..][..|bufs[i]|];
    } else {
      assert bufs[..i + 1] == bufs && bufs[..i] == front;
    }
  }

  /** One more buffer, given what writing all of it did. */
  lemma BufferSent(was: Memory, mid: Memory, now: Memory, reach: seq<nat>, ahead: seq<nat>, ahead': seq<nat>,
                   bufs: seq<seq<Byte>>, i: nat, n: nat, r: SendResult, k: nat)
    requires i < |bufs| && Sending(was, mid, reach, ahead, bufs, i, Sent, n)
    requires WroteAll(mid, now, ahead, ahead', bufs[i], r, k)
    ensures Sending(was, now, reach, ahead', bufs, i + 1, r, n + k) && (r.Sent? ==> k == |bufs[i]|)
  {
    ConcatSplits(bufs, i);
    var rest := Concat(bufs)[n..];
    assert rest[..k] == rest[..|bufs[i]|][..k];
    StoredMore(was, mid, now, reach, Concat(bufs), n, k);
    if r.FaultSend? {
      BlockedAhead(was, mid, reach, Concat(bufs), n, |bufs[i]|);
    }
  }

  lemma BlockedAhead(was: Memory, mid: Memory, reach: seq<nat>, data: seq<Byte>, n: nat, len: nat)
    requires Stored(was, mid, reach, data, n) && n + len <= |data|
    requires !Accessible(mid, reach[n..][..Min(len, |reach[n..]|)])
    ensures Blocked(was, reach, data)
  {
    assert forall p <- reach[n..][..Min(len, |reach[n..]|)] :: p in reach[..Min(|data|, |reach|)];
  }

  /** Round trip: over distinct places, what a reply stored is what a reader of the same
      segments, turned readable, gathers; and nothing outside those places has changed. */
  lemma ReplyReadsBack(was: Memory, now: Memory, chain: seq<Segment>, data: seq<Byte>)
    requires NoDuplicates(FirstReach(chain, true)) && Stored(was, now, FirstReach(chain, true), data, |data|)
    ensures Loaded(now, FirstReach(Flipped(chain), false), data)
    ensures forall p :: p in was && p !in FirstReach(chain, true)[..|data|] ==> p in now && now[p] == was[p]
  {
    FlippedSelects(chain, true);
    var places := FirstReach(chain, true)[..|data|];
    assert data[..|data|] == data;
    LoadOfStore(was, places, data);
    forall p | p in was && p !in places
      ensures p in now && now[p] == was[p]
    {
      StoreFrames(was, places, data, p);
    }
  }

  /** Send a reply and read it back over the same segments turned readable. It comes back as it
      was sent; and it is not sent only if it does not fit or a place cannot be accessed. */
  method SendAndReadBack(memory: GuestMemory, chain: seq<Segment>, bufs: seq<seq<Byte>>) returns (sent: bool, back: seq<Byte>)
    requires NoDuplicates(FirstReach(chain, true))
    modifies memory
    ensures sent ==> back == Concat(bufs)
    ensures sent <==> !Blocked(old(memory.bytes), FirstReach(chain, true), Concat(bufs)) && |Concat(bufs)| <= |FirstReach(chain, true)|
  {
    hide *;
    var sender := new PayloadReplySender(memory, chain);
    var r;
    ghost var written;
    ghost var was := memory.bytes;
    r, written := sender.Send(bufs);
    sent, back := r.Sent?, [];
    if sent {
      ReplyReadsBack(was, memory.bytes, chain, Concat(bufs));
      var reader := new PayloadReader(memory, Flipped(chain));
      var n := |Concat(bufs)|;
      ghost var reach := reader.Reach();
      var got := reader.ReadExact(n);
      ExactIsTheData(memory.bytes, reach, Concat(bufs), got);
      back := if got.Exactly? then got.data else [];
    }
  }

  /** If `data` is what the first places hold, reading that much gives it. */
  lemma ExactIsTheData(memory: Memory, reach: seq<nat>, data: seq<Byte>, got: ExactResult)
    requires Loaded(memory, reach, data)
    requires got.Exactly? ==> |got.data| == |data| && Loaded(memory, reach, got.data)
    requires got.EndOfData? ==> |reach| < |data|
    requires got.FaultExact? ==> !Accessible(memory, reach[..Min(|data|, |reach|)])
    ensures got == Exactly(data)
  {
  }

  /** Disjoint segments have distinct places. */
  predicate Disjoint(chain: seq<Segment>, writeable: bool) {
    forall i, j :: 0 <= i < j < |chain| && chain[i].writeable == chain[j].writeable == writeable ==>
      chain[i].address + chain[i].length <= chain[j].address || chain[j].address + chain[j].length <= chain[i].address
  }

  lemma {:induction false} SelectedIsInSegment(chain: seq<Segment>, writeable: bool, k: nat) returns (i: nat)
    requires k < |Selected(chain, writeable)|
    ensures i < |chain| && chain[i].writeable == writeable
    ensures chain[i].address <= Selected(chain, writeable)[k] < chain[i].address + chain[i].length
  {
    var n := if chain[0].writeable == writeable then chain[0].length else 0;
    if k < n {
      i := 0;
    } else {
      i := SelectedIsInSegment(chain[1..], writeable, k - n);
      i := i + 1;
    }
  }

  lemma DistinctConcat(p: seq<nat>, q: seq<nat>)
    requires NoDuplicates(p) && NoDuplicates(q) && forall x <- p :: x !in q
    ensures NoDuplicates(p + q)
  {
    var all := p + q;
    forall i, j | 0 <= i < j < |all|
      ensures all[i] != all[j]
    {
      if i < |p| <= j {
        assert p[i] in p && all[j] == q[j - |p|] && all[j] in q;
      }
    }
  }

  lemma {:induction false} DisjointIsDistinct(chain: seq<Segment>, writeable: bool)
    requires Disjoint(chain, writeable)
    ensures NoDuplicates(Selected(chain, writeable))
  {
    if chain != [] {
      var tail := Selected(chain[1..], writeable);
      DisjointIsDistinct(chain[1..], writeable);
      if chain[0].writeable == writeable {
        forall k, p | 0 <= k < |tail| && p in Range(chain[0].address, chain[0].length)
          ensures tail[k] != p
        {
          var i := SelectedIsInSegment(chain[1..], writeable, k);
          assert chain[1..][i] == chain[i + 1];
        }
        DistinctConcat(Range(chain[0].address, chain[0].length), tail);
      }
    }
  }

  /** A place that cannot be accessed later could not be accessed at the start. */
  lemma FaultIsAhead(was: Memory, mid: Memory, reach: seq<nat>, data: seq<Byte>, k: nat)
    requires Stored(was, mid, reach, data, k)
    requires !Accessible(mid, reach[k..][..Min(|data[k..]|, |reach[k..]|)])
    ensures !Accessible(was, reach[..Min(|data|, |reach|)])
  {
    var n := Min(|data|, |reach|);
    assert reach[k..][..n - k] == reach[k..n];
    assert forall p <- reach[k..n] :: p in reach[..n];
  }

  /** The first position of `byte` in `data`, or the length if there is none. */
  method FindByte(data: seq<Byte>, byte: Byte) returns (k: nat)
    ensures k <= |data| && byte !in data[..k] && (k < |data| ==> data[k] == byte)
  {
    k := 0;
    while k < |data| && data[k] != byte
      invariant k <= |data| && byte !in data[..k]
    {
      k := k + 1;
    }
  }

  function Concat(parts: seq<seq<Byte>>): seq<Byte> {
    if parts == [] then [] else Concat(parts[..|parts| - 1]) + parts[|parts| - 1]
  }

  lemma ConcatSnoc(parts: seq<seq<Byte>>, part: seq<Byte>)
    ensures Concat(parts + [part]) == Concat(parts) + part
  {
    assert (parts + [part])[..|parts|] == parts;
  }

  /** `data` is the contents of the first places of `unread`. */
  predicate Loaded(memory: Memory, unread: seq<nat>, data: seq<Byte>) {
    |data| <= |unread| && Accessible(memory, unread[..|data|]) && data == Load(memory, unread[..|data|])
  }

  lemma NothingLoaded(memory: Memory, unread: seq<nat>)
    ensures Loaded(memory, unread, []) && unread[0..] == unread
  {
  }

  lemma FaultWithin(memory: Memory, reach: seq<nat>, n: nat, want: nat)
    requires n <= |reach| && n <= want && !Accessible(memory, reach[..n])
    ensures !Accessible(memory, reach[..Min(want, |reach|)])
  {
    assert forall p <- reach[..n] :: p in reach[..Min(want, |reach|)];
  }

  lemma LoadMore(memory: Memory, unread: seq<nat>, data: seq<Byte>, part: seq<Byte>)
    requires Loaded(memory, unread, data) && Loaded(memory, unread[|data|..], part)
    ensures Loaded(memory, unread, data + part) && unread[|data|..][|part|..] == unread[|data + part|..]
  {
    assert unread[|data|..][..|part|] == unread[|data|..|data| + |part|];
    LoadConcat(memory, unread, |data|, |data| + |part|);
  }

  /** `parts` are consecutive slices from the start of `unread`, each within its size, with
      `left` still unread. */
  ghost predicate Slices(memory: Memory, reach: seq<nat>, unread: seq<nat>, sizes: seq<nat>, parts: seq<seq<Byte>>, left: seq<nat>) {
    && |parts| <= |sizes| && (forall i :: 0 <= i < |parts| ==> |parts[i]| <= sizes[i])
    && EmptyOnlyAtEnd(reach, sizes, parts)
    && Loaded(memory, unread, Concat(parts)) && reach <= unread && left == unread[|Concat(parts)|..]
  }

  /** A non-empty buffer stayed empty only when the reach was used up. */
  predicate EmptyOnlyAtEnd(reach: seq<nat>, sizes: seq<nat>, parts: seq<seq<Byte>>)
    requires |parts| <= |sizes|
  {
    forall i :: 0 <= i < |parts| && parts[i] == [] && sizes[i] > 0 ==> |Concat(parts[..i])| >= |reach|
  }

  /** As long as the reach lasts, `ahead` is what is left of it. */
  predicate InReach(reach: seq<nat>, parts: seq<seq<Byte>>, ahead: seq<nat>) {
    |Concat(parts)| < |reach| ==> ahead == reach[|Concat(parts)|..]
  }

  /** A place that was still to be read cannot be accessed. */
  ghost predicate Interrupted(memory: Memory, reach: seq<nat>, unread: seq<nat>, parts: seq<seq<Byte>>) {
    !Accessible(memory, unread) && (|Concat(parts)| < |reach| ==> !Accessible(memory, reach))
  }

  lemma InterruptedMeans(memory: Memory, reach: seq<nat>, unread: seq<nat>, parts: seq<seq<Byte>>)
    requires Interrupted(memory, reach, unread, parts)
    ensures !Accessible(memory, unread) && (|Concat(parts)| < |reach| ==> !Accessible(memory, reach))
  {
  }

  lemma NothingGathered(memory: Memory, reach: seq<nat>, unread: seq<nat>, sizes: seq<nat>)
    requires reach <= unread
    ensures Concat([]) == [] && Slices(memory, reach, unread, sizes, [], unread) && InReach(reach, [], reach)
  {
  }

  lemma GatherMore(memory: Memory, reach: seq<nat>, unread: seq<nat>, sizes: seq<nat>, parts: seq<seq<Byte>>,
                   left: seq<nat>, part: seq<Byte>, left': seq<nat>)
    requires Slices(memory, reach, unread, sizes, parts, left) && |parts| < |sizes| && |part| <= sizes[|parts|]
    requires Loaded(memory, left, part) && |part| <= |left| && left' == left[|part|..]
    requires part == [] && sizes[|parts|] > 0 ==> |Concat(parts)| >= |reach|
    ensures Slices(memory, reach, unread, sizes, parts + [part], left')
    ensures |Concat(parts + [part])| == |Concat(parts)| + |part|
  {
    hide Concat, EmptyOnlyAtEnd, Accessible, Load;
    ConcatSnoc(parts, part);
    LoadMore(memory, unread, Concat(parts), part);
    EmptyOnlyAtEndSnoc(reach, sizes, parts, part);
  }

  lemma EmptyOnlyAtEndSnoc(reach: seq<nat>, sizes: seq<nat>, parts: seq<seq<Byte>>, part: seq<Byte>)
    requires |parts| < |sizes| && EmptyOnlyAtEnd(reach, sizes, parts)
    requires part == [] && sizes[|parts|] > 0 ==> |Concat(parts)| >= |reach|
    ensures EmptyOnlyAtEnd(reach, sizes, parts + [part])
  {
    hide Concat;
    var parts' := parts + [part];
    forall i | 0 <= i < |parts'| && parts'[i] == [] && sizes[i] > 0
      ensures |Concat(parts'[..i])| >= |reach|
    {
      assert parts'[..i] == parts[..i];
      assert i == |parts| ==> parts[..i] == parts;
    }
  }

  /** The reach after one more read. */
  lemma ReachMore(reach: seq<nat>, parts: seq<seq<Byte>>, ahead: seq<nat>, part: seq<Byte>, ahead': seq<nat>)
    requires InReach(reach, parts, ahead) && (ahead != [] ==> |part| <= |ahead| && ahead' == ahead[|part|..])
    ensures InReach(reach, parts + [part], ahead')
  {
    ConcatSnoc(parts, part);
    hide Concat;
  }

  lemma ReachEnds(reach: seq<nat>, parts: seq<seq<Byte>>, ahead: seq<nat>)
    requires InReach(reach, parts, ahead) && ahead == []
    ensures |Concat(parts)| >= |reach|
  {
  }

  lemma GatherStops(memory: Memory, reach: seq<nat>, unread: seq<nat>, sizes: seq<nat>, parts: seq<seq<Byte>>, ahead: seq<nat>, left: seq<nat>, n: nat)
    requires Slices(memory, reach, unread, sizes, parts, left) && InReach(reach, parts, ahead) && ahead <= left
    requires n <= |ahead| && !Accessible(memory, ahead[..n])
    ensures Interrupted(memory, reach, unread, parts)
  {
    var p :| p in ahead[..n] && p !in memory;
    assert p in left && p in unread;
    if |Concat(parts)| < |reach| {
      assert p in reach;
    }
  }

  lemma SlicesMean(memory: Memory, reach: seq<nat>, unread: seq<nat>, sizes: seq<nat>, parts: seq<seq<Byte>>, left: seq<nat>)
    requires Slices(memory, reach, unread, sizes, parts, left)
    ensures |parts| <= |sizes| && forall i :: 0 <= i < |parts| ==> |parts[i]| <= sizes[i]
    ensures EmptyOnlyAtEnd(reach, sizes, parts)
    ensures |Concat(parts)| <= |unread| && Accessible(memory, unread[..|Concat(parts)|])
    ensures Concat(parts) == Load(memory, unread[..|Concat(parts)|]) && left == unread[|Concat(parts)|..]
  {
  }

  /** `data` has been read of the reach, and `ahead` and `left` are left. */
  ghost predicate ReadOn(memory: Memory, reach: seq<nat>, unread: seq<nat>, data: seq<Byte>, ahead: seq<nat>, left: seq<nat>) {
    reach <= unread && |data| <= |reach| && Loaded(memory, unread, data) && ahead == reach[|data|..] && left == unread[|data|..]
  }

  lemma NothingReadOn(memory: Memory, reach: seq<nat>, unread: seq<nat>)
    requires reach <= unread
    ensures ReadOn(memory, reach, unread, [], reach, unread)
  {
  }

  lemma ReadOnMore(memory: Memory, reach: seq<nat>, unread: seq<nat>, data: seq<Byte>, ahead: seq<nat>, left: seq<nat>,
                   part: seq<Byte>, ahead': seq<nat>, left': seq<nat>)
    requires ReadOn(memory, reach, unread, data, ahead, left) && Loaded(memory, left, part)
    requires |part| <= |ahead| && |part| <= |left| && ahead' == ahead[|part|..] && left' == left[|part|..]
    ensures ReadOn(memory, reach, unread, data + part, ahead', left')
  {
    LoadMore(memory, unread, data, part);
  }

  lemma ReadOnEnds(memory: Memory, reach: seq<nat>, unread: seq<nat>, data: seq<Byte>, ahead: seq<nat>, left: seq<nat>)
    requires ReadOn(memory, reach, unread, data, ahead, left) && ahead == []
    ensures |data| == |reach| <= |unread| && left == unread[|reach|..] && left[0..] == left
  {
  }

  lemma ReadOnFaults(memory: Memory, reach: seq<nat>, unread: seq<nat>, data: seq<Byte>, ahead: seq<nat>, left: seq<nat>, n: nat)
    requires ReadOn(memory, reach, unread, data, ahead, left) && |data| <= n
    requires !Accessible(memory, ahead[..Min(n - |data|, |ahead|)])
    ensures !Accessible(memory, reach[..Min(n, |reach|)])
  {
    assert forall p <- ahead[..Min(n - |data|, |ahead|)] :: p in reach[..Min(n, |reach|)];
  }

  lemma ReadOnMeans(memory: Memory, reach: seq<nat>, unread: seq<nat>, data: seq<Byte>, ahead: seq<nat>, left: seq<nat>)
    requires ReadOn(memory, reach, unread, data, ahead, left)
    ensures |data| <= |reach| <= |unread| && Loaded(memory, reach, data)
    ensures ahead == reach[|data|..] && left == unread[|data|..]
  {
    assert reach[..|data|] == unread[..|data|];
  }

  /** The result of a search does not depend on how the places are cut into segments. */
  lemma SearchIsDetermined(memory: Memory, reach: seq<nat>, byte: Byte, r1: UntilResult, r2: UntilResult)
    requires Ends(memory, reach, byte, r1) && Ends(memory, reach, byte, r2)
    requires Accessible(memory, reach)
    ensures r1 == r2 && (r1.Found? <==> byte in Load(memory, reach)) && !r1.FaultUntil?
  {
    var all := Load(memory, reach);
    if r1.Found? {
      assert all[|r1.bytes|] == byte;
    }
  }

  lemma SingleSegment(chain: seq<Segment>, c: Cursor)
    requires |chain| == 1 && OnChain(chain, c) && Wellformed(c, false) && Ahead(c, false) != []
    ensures c.current.Some? && RestOfSegment(c) == Left(c) == |Ahead(c, false)|
  {
  }

  const FOUR_BYTES: seq<Segment> := [Segment(false, 0, 4)]
  const FOUR_VALUES: Memory := map[0 := 7, 1 := 0, 2 := 8, 3 := 9]

  lemma FourBytesSearched()
    ensures Selected(FOUR_BYTES, false) == FirstReach(FOUR_BYTES, false) == [0, 1, 2, 3]
    ensures Accessible(FOUR_VALUES, [0, 1, 2, 3]) && Accessible(FOUR_VALUES, [2, 3])
    ensures Ends(FOUR_VALUES, [0, 1, 2, 3], 0, Found([7]))
  {
    assert FOUR_BYTES[1..] == [];
    assert Range(0, 4) == [0, 1, 2, 3];
    assert Load(FOUR_VALUES, [0, 1, 2, 3]) == [7, 0, 8, 9];
  }

  /** A reader that has just searched for the second byte of a four-byte segment. */
  method SearchInsideSegment() returns (reader: PayloadReader)
    ensures fresh(reader) && reader.Valid() && reader.Unread() == reader.Reach() == [2, 3]
    ensures Accessible(reader.memory.bytes, [2, 3]) && reader.rewound == 2
    ensures reader.cursor.current.Some? && Left(reader.cursor) == 2
  {
    hide Ends, Load, Ahead, Visible, Selected, FirstReach, Unbroken, Suffix, OnChain, Accessible, Gap;
    var memory := new GuestMemory(FOUR_VALUES);
    reader := new PayloadReader(memory, FOUR_BYTES);
    FourBytesSearched();
    var found := reader.ReadUntil(0);
    SearchIsDetermined(memory.bytes, [0, 1, 2, 3], 0, found, Found([7]));
    SingleSegment(FOUR_BYTES, reader.cursor);
  }

  /** `remaining_len` drifts: after one `read_until` that stops inside a segment it is below
      the number of unread bytes, and reading on makes it wrap around. */
  method RemainingLenDrifts() returns (unread: nat, claimed: nat, later: nat)
    ensures unread == 2 && claimed == 0 && later == U64 - 2
  {
    var reader := SearchInsideSegment();
    hide Load, Ahead, Visible, Selected, Suffix, OnChain;
    unread := Left(reader.cursor);
    claimed := reader.RemainingLen();
    var rest := reader.Read(2);
    later := reader.RemainingLen();
  }
}
