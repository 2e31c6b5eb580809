/** What several components share. */
module Common {
  type Byte = x: int | 0 <= x < 256

  datatype Option<T> = None | Some(value: T)

  const U32 := 0x1_0000_0000
  const U64 := 0x1_0000_0000_0000_0000

  function Min(a: int, b: int): int { if a <= b then a else b }

  function B(b: bool): nat { if b then 1 else 0 }

  function Skip(at: nat, j: nat): nat { if j < at then j else j + 1 }

  /** `s` without the element at `i`. */
  function RemoveAt<T>(s: seq<T>, i: nat): (r: seq<T>)
    requires i < |s|
    ensures |r| == |s| - 1
    ensures forall j :: 0 <= j < |r| ==> r[j] == s[Skip(i, j)]
  {
    s[..i] + s[i + 1..]
  }

  predicate NoDuplicates<T(==)>(s: seq<T>) {
    forall i, j :: 0 <= i < j < |s| ==> s[i] != s[j]
  }

  /** `tail` is the end of `whole`. */
  predicate Suffix<T(==)>(tail: seq<T>, whole: seq<T>) {
    |tail| <= |whole| && tail == whole[|whole| - |tail|..]
  }

  lemma SuffixOfSelf<T>(s: seq<T>)
    ensures Suffix(s, s)
  {
  }

  lemma SuffixShrinks<T>(s: seq<T>, whole: seq<T>)
    requires Suffix(s, whole) && s != []
    ensures Suffix(s[1..], whole) && |s| <= |whole|
  {
  }

  lemma SuffixOfSuffix<T>(s: seq<T>, t: seq<T>, whole: seq<T>)
    requires Suffix(s, t) && Suffix(t, whole)
    ensures Suffix(s, whole) && |s| <= |t| <= |whole|
  {
  }

  /** What is not one's own among `events`. */
  function Others<T>(events: seq<T>, own: T -> bool): seq<T> {
    if events == [] then []
    else
      var n := |events| - 1;
      Others(events[..n], own) + if own(events[n]) then [] else [events[n]]
  }

  lemma OthersNext<T>(events: seq<T>, own: T -> bool, i: nat)
    requires i < |events|
    ensures Others(events[..i + 1], own) == Others(events[..i], own) + if own(events[i]) then [] else [events[i]]
  {
    assert events[..i + 1][..i] == events[..i];
  }
}
