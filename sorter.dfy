/**
  `sortByLastName`: sorts the participant array in place by surname and
  returns that same array. `localeCompare` is locale-dependent collation, so it
  is a parameter here: `before(x, y)` stands for `x.localeCompare(y) <= 0` and
  is only assumed to be a total preorder.
 */
module Sorter {
  import opened Records

  /** `x` and `y` compare one way or the other. */
  ghost predicate ComparableAt(before: (string, string) -> bool, x: string, y: string) {
    before(x, y) || before(y, x)
  }

  /** Comparison is transitive through `y`. */
  ghost predicate TransitiveAt(before: (string, string) -> bool, x: string, y: string, z: string) {
    before(x, y) && before(y, z) ==> before(x, z)
  }

  /**
    Every two strings compare, and comparison is transitive. The two
    properties are stated through named instances so that a proof uses
    exactly the instances it mentions.
   */
  ghost predicate TotalPreorder(before: (string, string) -> bool) {
    && (forall x, y :: ComparableAt(before, x, y))
    && (forall x, y, z :: TransitiveAt(before, x, y, z))
  }

  /** Non-decreasing by surname under `before`, for every pair of positions. */
  ghost predicate SortedByLastName(s: seq<Participant>, before: (string, string) -> bool) {
    forall p, q :: 0 <= p < q < |s| ==> before(s[p].lastName, s[q].lastName)
  }

  /** `s` with the entries at `j - 1` and `j` exchanged. */
  function Swapped<T>(s: seq<T>, j: nat): (r: seq<T>)
    requires 0 < j < |s|
  {
    s[j - 1 := s[j]][j := s[j - 1]]
  }

  /** Exchanges two neighbouring entries in place. */
  method SwapDown(a: array<Participant>, j: nat)
    requires 0 < j < a.Length
    modifies a
    ensures a[..] == Swapped(old(a[..]), j)
    ensures multiset(a[..]) == multiset(old(a[..]))
  {
    a[j - 1], a[j] := a[j], a[j - 1];
  }

  /**
    Entries with equal surnames keep their input order: `origin[k]` is the
    input position of the entry now at `k`.
   */
  ghost predicate StableBy(s: seq<Participant>, origin: seq<nat>, before: (string, string) -> bool)
    requires |origin| == |s|
  {
    forall p, q :: 0 <= p < q < |s| && before(s[q].lastName, s[p].lastName) ==> origin[p] < origin[q]
  }

  /** `origin` is a one-to-one map from positions of `s` to positions of `input` that `s` takes its entries from. */
  ghost predicate Rearranges(s: seq<Participant>, origin: seq<nat>, input: seq<Participant>) {
    && |origin| == |s| == |input|
    && (forall k :: 0 <= k < |s| ==> origin[k] < |input| && s[k] == input[origin[k]])
    && (forall p, q :: 0 <= p < q < |s| ==> origin[p] != origin[q])
  }

  /** Outer loop state: the first `i` entries are sorted and stable, the rest untouched. */
  ghost predicate PrefixSorted(s: seq<Participant>, origin: seq<nat>, input: seq<Participant>, i: int,
                               before: (string, string) -> bool)
  {
    && 0 <= i <= |s|
    && Rearranges(s, origin, input)
    && (forall k :: 0 <= k < i ==> origin[k] < i)
    && (forall k :: i <= k < |s| ==> origin[k] == k)
    && (forall p, q :: 0 <= p < q < i ==> before(s[p].lastName, s[q].lastName))
    && (forall p, q :: 0 <= p < q < i && before(s[q].lastName, s[p].lastName) ==> origin[p] < origin[q])
  }

  /**
    Inner loop state: entry `i` of the input, now at `j`, is moving down; every
    entry it has passed has a strictly greater surname.
   */
  ghost predicate Inserting(s: seq<Participant>, origin: seq<nat>, input: seq<Participant>, i: int, j: int,
                            before: (string, string) -> bool)
  {
    && 0 <= j <= i < |s|
    && Rearranges(s, origin, input)
    && origin[j] == i
    && (forall k :: 0 <= k <= i && k != j ==> origin[k] < i)
    && (forall k :: i < k < |s| ==> origin[k] == k)
    && (forall p, q :: 0 <= p < q <= i && p != j && q != j ==> before(s[p].lastName, s[q].lastName))
    && (forall q :: j < q <= i ==> before(s[j].lastName, s[q].lastName) && !before(s[q].lastName, s[j].lastName))
    && (forall p, q :: 0 <= p < q <= i && p != j && q != j && before(s[q].lastName, s[p].lastName) ==>
          origin[p] < origin[q])
  }

  lemma StartInserting(s: seq<Participant>, origin: seq<nat>, input: seq<Participant>, i: nat,
                       before: (string, string) -> bool)
    requires PrefixSorted(s, origin, input, i, before) && i < |s|
    ensures Inserting(s, origin, input, i, i, before)
  {
  }

  /** Moving the entry down past a strictly greater neighbour keeps the inner loop state. */
  lemma SwapStep(s: seq<Participant>, origin: seq<nat>, input: seq<Participant>, i: nat, j: nat,
                 before: (string, string) -> bool)
    requires TotalPreorder(before)
    requires Inserting(s, origin, input, i, j, before) && 0 < j
    requires !before(s[j - 1].lastName, s[j].lastName)
    ensures Inserting(Swapped(s, j), Swapped(origin, j), input, i, j - 1, before)
  {
    assert ComparableAt(before, s[j - 1].lastName, s[j].lastName);
    var t, o := Swapped(s, j), Swapped(origin, j);
    forall p, q | 0 <= p < q <= i && p != j - 1 && q != j - 1
      ensures before(t[p].lastName, t[q].lastName)
    {
      if p == j {
        assert t[p] == s[j - 1] && t[q] == s[q];
      } else if q == j {
        assert t[p] == s[p] && t[q] == s[j - 1];
      }
    }
    forall p, q | 0 <= p < q <= i && p != j - 1 && q != j - 1 && before(t[q].lastName, t[p].lastName)
      ensures o[p] < o[q]
    {
      if p == j {
        assert t[p] == s[j - 1] && t[q] == s[q];
      } else if q == j {
        assert t[p] == s[p] && t[q] == s[j - 1];
      }
    }
  }

  /** The entry stops next to a neighbour that is not greater: the first `i + 1` entries are sorted and stable. */
  lemma FinishInserting(s: seq<Participant>, origin: seq<nat>, input: seq<Participant>, i: nat, j: nat,
                        before: (string, string) -> bool)
    requires TotalPreorder(before)
    requires Inserting(s, origin, input, i, j, before)
    requires j == 0 || before(s[j - 1].lastName, s[j].lastName)
    ensures PrefixSorted(s, origin, input, i + 1, before)
  {
    forall p, q | 0 <= p < q <= i
      ensures before(s[p].lastName, s[q].lastName)
    {
      if q == j && p < j - 1 {
        assert TransitiveAt(before, s[p].lastName, s[j - 1].lastName, s[j].lastName);
      }
    }
  }

  /** With the whole array sorted by the outer loop, the sort's promises hold. */
  lemma SortedWhole(s: seq<Participant>, origin: seq<nat>, input: seq<Participant>, before: (string, string) -> bool)
    requires PrefixSorted(s, origin, input, |s|, before)
    ensures SortedByLastName(s, before)
    ensures Rearranges(s, origin, input) && StableBy(s, origin, before)
  {
  }

  /** One pass of the outer loop: entry `i` moves down past every strictly greater surname. */
  method InsertDown(a: array<Participant>, i: nat, before: (string, string) -> bool,
                    ghost origin: seq<nat>, ghost input: seq<Participant>)
    returns (ghost origin': seq<nat>)
    requires TotalPreorder(before)
    requires PrefixSorted(a[..], origin, input, i, before) && i < a.Length
    modifies a
    ensures PrefixSorted(a[..], origin', input, i + 1, before)
    ensures multiset(a[..]) == multiset(old(a[..]))
  {
    StartInserting(a[..], origin, input, i, before);
    origin' := origin;
    var j := i;
    while j > 0 && !before(a[j - 1].lastName, a[j].lastName)
      invariant Inserting(a[..], origin', input, i, j, before)
      invariant multiset(a[..]) == multiset(old(a[..]))
    {
      SwapStep(a[..], origin', input, i, j, before);
      SwapDown(a, j);
      origin' := Swapped(origin', j);
      j := j - 1;
    }
    FinishInserting(a[..], origin', input, i, j, before);
  }

  /**
    The in-place sort by surname comparison, written as an
    insertion sort that moves an entry down only past strictly greater
    surnames, so entries with equal surnames keep their order (the sort of
    JavaScript is stable). The same array is returned.
   */
  method SortByLastName(a: array<Participant>, before: (string, string) -> bool)
    returns (sorted: array<Participant>, ghost origin: seq<nat>)
    requires TotalPreorder(before)
    modifies a
    ensures sorted == a
    ensures SortedByLastName(a[..], before)
    ensures multiset(a[..]) == multiset(old(a[..]))
    ensures Rearranges(a[..], origin, old(a[..])) && StableBy(a[..], origin, before)
  {
    ghost var input := a[..];
    origin := seq(a.Length, k => k);
    var i := 0;
    while i < a.Length
      invariant PrefixSorted(a[..], origin, input, i, before)
      invariant multiset(a[..]) == multiset(input)
    {
      origin := InsertDown(a, i, before, origin, input);
      i := i + 1;
    }
    SortedWhole(a[..], origin, input, before);
    sorted := a;
  }
}
