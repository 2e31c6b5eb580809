/**
 Descriptor-chain payloads: which guest addresses a chain selects, and the cursor that
 walks them. Everything is stated over places, the guest addresses in walking order, so
 that reading and writing are loads from and stores to a list of places.
 */
module PayloadModel {
  import opened Common

  /** One descriptor of a chain. */
  datatype Segment = Segment(writeable: bool, address: nat, length: nat)

  /** Guest memory: the accessible addresses and their bytes. */
  type Memory = map<nat, Byte>

  function Range(address: nat, length: nat): (r: seq<nat>)
    ensures |r| == length && forall i :: 0 <= i < length ==> r[i] == address + i
  {
    seq(length, i requires 0 <= i => address + i)
  }

  /** All places of the segments of one direction, in chain order. */
  function Selected(chain: seq<Segment>, writeable: bool): seq<nat> {
    if chain == [] then []
    else if chain[0].writeable != writeable then Selected(chain[1..], writeable)
    else Range(chain[0].address, chain[0].length) + Selected(chain[1..], writeable)
  }

  /** The places up to the first empty segment of that direction: a walk that takes an empty
      segment for the end of the data sees no further. */
  function Unbroken(chain: seq<Segment>, writeable: bool): seq<nat> {
    if chain == [] then []
    else if chain[0].writeable != writeable then Unbroken(chain[1..], writeable)
    else if chain[0].length == 0 then []
    else Range(chain[0].address, chain[0].length) + Unbroken(chain[1..], writeable)
  }

  /** What a fresh walk can reach: its first segment, empty or not, and then up to the first
      empty one. */
  function FirstReach(chain: seq<Segment>, writeable: bool): seq<nat> {
    if chain == [] then []
    else if chain[0].writeable != writeable then FirstReach(chain[1..], writeable)
    else Range(chain[0].address, chain[0].length) + Unbroken(chain[1..], writeable)
  }

  predicate NoEmptySegments(chain: seq<Segment>, writeable: bool) {
    forall s <- chain :: s.writeable == writeable ==> s.length > 0
  }

  /** Without empty segments nothing is hidden. */
  lemma {:induction false} UnbrokenIsAll(chain: seq<Segment>, writeable: bool)
    requires NoEmptySegments(chain, writeable)
    ensures Unbroken(chain, writeable) == FirstReach(chain, writeable) == Selected(chain, writeable)
  {
    if chain != [] {
      assert chain[0] in chain;
      UnbrokenIsAll(chain[1..], writeable);
    }
  }

  lemma {:induction false} UnbrokenIsPrefix(chain: seq<Segment>, writeable: bool)
    ensures Unbroken(chain, writeable) <= Selected(chain, writeable)
  {
    if chain != [] {
      UnbrokenIsPrefix(chain[1..], writeable);
    }
  }

  lemma {:induction false} FirstReachIsPrefix(chain: seq<Segment>, writeable: bool)
    ensures FirstReach(chain, writeable) <= Selected(chain, writeable)
  {
    if chain != [] {
      FirstReachIsPrefix(chain[1..], writeable);
      UnbrokenIsPrefix(chain[1..], writeable);
    }
  }

  /** An empty segment of the direction stands before one that is not empty. */
  predicate Gap(chain: seq<Segment>, writeable: bool) {
    && chain != []
    && (|| Gap(chain[1..], writeable)
        || (&& chain[0].writeable == writeable && chain[0].length == 0
            && exists s <- chain[1..] :: s.writeable == writeable && s.length > 0))
  }

  lemma {:induction false} SelectsNothing(chain: seq<Segment>, writeable: bool)
    ensures Selected(chain, writeable) == [] <==> forall s <- chain :: s.writeable == writeable ==> s.length == 0
  {
    if chain != [] {
      SelectsNothing(chain[1..], writeable);
      assert chain == [chain[0]] + chain[1..];
    }
  }

  lemma {:induction false} GapNeedsData(chain: seq<Segment>, writeable: bool)
    requires Gap(chain, writeable)
    ensures Selected(chain, writeable) != []
  {
    if Gap(chain[1..], writeable) {
      GapNeedsData(chain[1..], writeable);
    } else {
      SelectsNothing(chain[1..], writeable);
    }
  }

  lemma {:induction false} UnbrokenIsAllUnlessGap(chain: seq<Segment>, writeable: bool)
    ensures Unbroken(chain, writeable) == Selected(chain, writeable) <==> !Gap(chain, writeable)
  {
    if chain != [] {
      UnbrokenIsAllUnlessGap(chain[1..], writeable);
      if chain[0].writeable == writeable {
        SamePrefix(Range(chain[0].address, chain[0].length), Unbroken(chain[1..], writeable), Selected(chain[1..], writeable));
        SelectsNothing(chain[1..], writeable);
        if Gap(chain[1..], writeable) {
          GapNeedsData(chain[1..], writeable);
        }
      }
    }
  }

  lemma SamePrefix(p: seq<nat>, q: seq<nat>, r: seq<nat>)
    ensures p + q == p + r <==> q == r
  {
    if p + q == p + r {
      assert q == (p + q)[|p|..] == (p + r)[|p|..] == r;
    }
  }

  /** The segments after the first one of the direction. */
  function AfterFirst(chain: seq<Segment>, writeable: bool): seq<Segment> {
    if chain == [] then [] else if chain[0].writeable == writeable then chain[1..] else AfterFirst(chain[1..], writeable)
  }

  /** A fresh walk sees the whole payload exactly when, after its first segment, no empty
      segment stands before a non-empty one. */
  lemma {:induction false} WalkSeesAllUnlessGap(chain: seq<Segment>, writeable: bool)
    ensures FirstReach(chain, writeable) <= Selected(chain, writeable)
    ensures FirstReach(chain, writeable) == Selected(chain, writeable) <==> !Gap(AfterFirst(chain, writeable), writeable)
  {
    FirstReachIsPrefix(chain, writeable);
    if chain != [] {
      if chain[0].writeable == writeable {
        UnbrokenIsAllUnlessGap(chain[1..], writeable);
        SamePrefix(Range(chain[0].address, chain[0].length), Unbroken(chain[1..], writeable), Selected(chain[1..], writeable));
      } else {
        WalkSeesAllUnlessGap(chain[1..], writeable);
      }
    }
  }

  /** An empty segment between two others hides the last: the walk ends after the first. */
  lemma EmptySegmentHides()
    ensures var chain := [Segment(false, 0, 1), Segment(false, 1, 0), Segment(false, 1, 1)];
      FirstReach(chain, false) == [0] && Selected(chain, false) == [0, 1]
  {
    var chain := [Segment(false, 0, 1), Segment(false, 1, 0), Segment(false, 1, 1)];
    assert chain[1..] == [chain[1], chain[2]] && [chain[1], chain[2]][1..] == [chain[2]];
    assert Selected([chain[2]], false) == [1];
    assert Selected(chain[1..], false) == [1];
  }

  // ---------------------------------------------------------------- the cursor

  /** The iterator's rest, the segment it last returned, and the offset in that segment. */
  datatype Cursor = Cursor(rest: seq<Segment>, current: Option<Segment>, offset: nat)

  predicate Wellformed(c: Cursor, writeable: bool) {
    c.current.Some? ==> c.current.value.writeable == writeable && c.offset <= c.current.value.length
  }

  /** Bytes left in the current segment. */
  function Left(c: Cursor): nat
    requires c.current.Some? && c.offset <= c.current.value.length
  {
    c.current.value.length - c.offset
  }

  function Here(c: Cursor): seq<nat>
    requires c.current.Some? && c.offset <= c.current.value.length
  {
    Range(c.current.value.address + c.offset, Left(c))
  }

  /** Every place the cursor has still to visit. */
  function Ahead(c: Cursor, writeable: bool): seq<nat>
    requires Wellformed(c, writeable)
  {
    if c.current.None? then [] else Here(c) + Selected(c.rest, writeable)
  }

  /** The places it can reach without taking an empty segment for the end. */
  function Visible(c: Cursor, writeable: bool): seq<nat>
    requires Wellformed(c, writeable)
  {
    if c.current.None? then [] else Here(c) + Unbroken(c.rest, writeable)
  }

  lemma VisibleIsAhead(c: Cursor, writeable: bool)
    requires Wellformed(c, writeable)
    ensures Visible(c, writeable) <= Ahead(c, writeable)
  {
    UnbrokenIsPrefix(c.rest, writeable);
  }

  /** The cursor stands on a segment of the chain, with the segments after it to come. */
  predicate OnChain(chain: seq<Segment>, c: Cursor) {
    && |c.rest| <= |chain| && c.rest == chain[|chain| - |c.rest|..]
    && (c.current.Some? ==> |c.rest| < |chain| && c.current.value == chain[|chain| - |c.rest| - 1])
  }

  lemma OnChainAgain(chain: seq<Segment>, c: Cursor, c': Cursor)
    requires OnChain(chain, c) && OnChain(c.rest, c')
    ensures OnChain(chain, c')
  {
  }

  /** Skip to the next segment of the direction, dropping the others. */
  method NextPayload(chain: seq<Segment>, writeable: bool) returns (current: Option<Segment>, rest: seq<Segment>)
    ensures current.Some? ==> current.value.writeable == writeable && current.value in chain
    ensures OnChain(chain, Cursor(rest, current, 0))
    ensures Ahead(Cursor(rest, current, 0), writeable) == Selected(chain, writeable)
    ensures Visible(Cursor(rest, current, 0), writeable) == FirstReach(chain, writeable)
    ensures if current.Some? && current.value.length > 0 then Visible(Cursor(rest, current, 0), writeable) == Unbroken(chain, writeable)
            else Unbroken(chain, writeable) == []
  {
    rest := chain;
    while rest != [] && rest[0].writeable != writeable
      invariant |rest| <= |chain| && rest == chain[|chain| - |rest|..] && Selected(rest, writeable) == Selected(chain, writeable)
      invariant Unbroken(rest, writeable) == Unbroken(chain, writeable)
      invariant FirstReach(rest, writeable) == FirstReach(chain, writeable)
      decreases |rest|
    {
      rest := rest[1..];
    }
    if rest == [] {
      current := None;
    } else {
      current := Some(rest[0]);
      rest := rest[1..];
    }
  }

  /** The current segment, moving on if it is used up. Moves at most one segment: it may
      land on an empty one, and then nothing is visible although something may be ahead. */
  method GetPayload(c: Cursor, writeable: bool, ghost chain: seq<Segment>) returns (c': Cursor)
    requires Wellformed(c, writeable) && OnChain(chain, c)
    ensures OnChain(chain, c')
    ensures Wellformed(c', writeable) && Ahead(c', writeable) == Ahead(c, writeable)
    ensures Visible(c, writeable) == [] <==> c'.current.None? || Left(c') == 0
    ensures Visible(c, writeable) != [] ==> Visible(c', writeable) == Visible(c, writeable)
    ensures c.current.Some? && Left(c) > 0 ==> c' == c
  {
    c' := c;
    if c.current.Some? && c.offset == c.current.value.length {
      var current, rest := NextPayload(c.rest, writeable);
      c' := Cursor(rest, current, 0);
      OnChainAgain(chain, c, c');
    }
  }

  /** The cursor after `n` bytes of the current segment. */
  function Moved(c: Cursor, n: nat): Cursor {
    c.(offset := c.offset + n)
  }

  lemma MovedPlaces(c: Cursor, writeable: bool, n: nat)
    requires Wellformed(c, writeable) && c.current.Some? && n <= Left(c)
    ensures Wellformed(Moved(c, n), writeable)
    ensures |Ahead(c, writeable)| >= n && Ahead(Moved(c, n), writeable) == Ahead(c, writeable)[n..]
    ensures |Visible(c, writeable)| >= n && Visible(Moved(c, n), writeable) == Visible(c, writeable)[n..]
    ensures Ahead(c, writeable)[..n] == Visible(c, writeable)[..n] == Range(c.current.value.address + c.offset, n)
  {
    assert Here(c)[..n] == Range(c.current.value.address + c.offset, n);
    assert Here(c)[n..] == Here(Moved(c, n));
  }

  lemma SuffixDrops(tail: seq<nat>, whole: seq<nat>, n: nat)
    requires Suffix(tail, whole) && n <= |tail|
    ensures Suffix(tail[n..], whole)
  {
  }

  // ---------------------------------------------------------------- memory

  predicate Accessible(memory: Memory, places: seq<nat>) {
    forall p <- places :: p in memory
  }

  function Load(memory: Memory, places: seq<nat>): (r: seq<Byte>)
    requires Accessible(memory, places)
    ensures |r| == |places| && forall i :: 0 <= i < |r| ==> r[i] == memory[places[i]]
  {
    seq(|places|, i requires 0 <= i < |places| => memory[places[i]])
  }

  lemma LoadConcat(memory: Memory, places: seq<nat>, n: nat, m: nat)
    requires n <= m <= |places| && Accessible(memory, places[..n]) && Accessible(memory, places[n..m])
    ensures Accessible(memory, places[..m])
    ensures Load(memory, places[..m]) == Load(memory, places[..n]) + Load(memory, places[n..m])
  {
    assert places[..m] == places[..n] + places[n..m];
  }

  /** A part read next, and any prefix of it, continues what was read before. */
  lemma Continues(memory: Memory, reach: seq<nat>, unread: seq<nat>, b: nat, data: seq<Byte>, k: nat)
    requires reach <= unread && b + |data| <= |reach| && k <= |data|
    requires Accessible(memory, reach[..b]) && Accessible(memory, unread[b..][..|data|])
    requires data == Load(memory, unread[b..][..|data|])
    ensures Accessible(memory, reach[..b + k])
    ensures Load(memory, reach[..b]) + data[..k] == Load(memory, reach[..b + k])
    ensures unread[b..][k..] == unread[b + k..] && reach[b..][k..] == reach[b + k..]
  {
    var next := unread[b..][..|data|];
    assert forall i :: 0 <= i < |data| ==> next[i] == reach[b + i];
    assert reach[b..b + k] == next[..k];
    LoadConcat(memory, reach, b, b + k);
  }

  /** Store `data` at `places`, first to last. */
  function Store(memory: Memory, places: seq<nat>, data: seq<Byte>): (r: Memory)
    requires |places| == |data| && Accessible(memory, places)
    ensures r.Keys == memory.Keys
  {
    if places == [] then memory
    else
      var n := |places| - 1;
      Store(memory, places[..n], data[..n])[places[n] := data[n]]
  }

  /** Nothing but the places changes. */
  lemma {:induction false} StoreFrames(memory: Memory, places: seq<nat>, data: seq<Byte>, p: nat)
    requires |places| == |data| && Accessible(memory, places) && p in memory && p !in places
    ensures Store(memory, places, data)[p] == memory[p]
  {
    if places != [] {
      var n := |places| - 1;
      StoreFrames(memory, places[..n], data[..n], p);
    }
  }

  /** Round trip: what was stored at distinct places is loaded back from them. */
  lemma {:induction false} LoadOfStore(memory: Memory, places: seq<nat>, data: seq<Byte>)
    requires |places| == |data| && Accessible(memory, places) && NoDuplicates(places)
    ensures Load(Store(memory, places, data), places) == data
  {
    if places != [] {
      var n := |places| - 1;
      var before := Store(memory, places[..n], data[..n]);
      LoadOfStore(memory, places[..n], data[..n]);
      forall i | 0 <= i < n
        ensures Store(memory, places, data)[places[i]] == data[i]
      {
        assert before[places[i]] == Load(before, places[..n])[i];
      }
    }
  }

  lemma StoreSnoc(memory: Memory, places: seq<nat>, data: seq<Byte>, p: nat, b: Byte)
    requires |places| == |data| && Accessible(memory, places) && p in memory
    ensures Accessible(memory, places + [p])
    ensures Store(memory, places + [p], data + [b]) == Store(memory, places, data)[p := b]
  {
    assert (places + [p])[..|places|] == places && (data + [b])[..|data|] == data;
  }

  lemma {:induction false} StoreConcat(memory: Memory, p: seq<nat>, d: seq<Byte>, q: seq<nat>, e: seq<Byte>)
    requires |p| == |d| && |q| == |e| && Accessible(memory, p) && Accessible(memory, q)
    ensures Accessible(memory, p + q)
    ensures Store(memory, p + q, d + e) == Store(Store(memory, p, d), q, e)
  {
    if q == [] {
      assert p + q == p && d + e == d;
    } else {
      var n := |q| - 1;
      var q', e' := q[..n], e[..n];
      StoreConcat(memory, p, d, q', e');
      assert q == q' + [q[n]] && e == e' + [e[n]] && q[n] in q;
      assert p + q == (p + q') + [q[n]] && d + e == (d + e') + [e[n]];
      hide Store;
      StoreSnoc(memory, p + q', d + e', q[n], e[n]);
      StoreSnoc(Store(memory, p, d), q', e', q[n], e[n]);
    }
  }

  /** A chain with every direction turned around selects the same places the other way. */
  function Flipped(chain: seq<Segment>): (r: seq<Segment>)
    ensures |r| == |chain| && forall i :: 0 <= i < |r| ==> r[i] == chain[i].(writeable := !chain[i].writeable)
  {
    seq(|chain|, i requires 0 <= i < |chain| => chain[i].(writeable := !chain[i].writeable))
  }

  lemma {:induction false} FlippedSelects(chain: seq<Segment>, writeable: bool)
    ensures Selected(Flipped(chain), !writeable) == Selected(chain, writeable)
    ensures Unbroken(Flipped(chain), !writeable) == Unbroken(chain, writeable)
    ensures FirstReach(Flipped(chain), !writeable) == FirstReach(chain, writeable)
  {
    if chain != [] {
      assert Flipped(chain)[1..] == Flipped(chain[1..]);
      FlippedSelects(chain[1..], writeable);
    }
  }
}
