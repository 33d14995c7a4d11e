/**
 * The homepage-section list staged by the customize dialog: the fixed
 * catalogue of sections, the checkbox toggle and the drag-and-drop move.
 * The list operations are generic; the dialog uses them on section ids.
 */
module Sections {
  import opened Wrappers

  /** One entry of the catalogue of homepage sections: its id and its label. */
  datatype Section = Section(id: string, name: string)

  /** The catalogue, in the order its checkboxes are shown. */
  const AvailableSections: seq<Section> := [
    Section("latestVideos", "Latest Uploads"),
    Section("popularVideos", "Popular Uploads"),
    Section("playlists", "Playlists")
  ]

  /** The id is that of a catalogue section. */
  predicate IsKnownId(id: string) {
    exists k :: 0 <= k < |AvailableSections| && AvailableSections[k].id == id
  }

  /** The catalogue ids are exactly the three section ids. */
  lemma CatalogueIds(id: string)
    ensures IsKnownId(id) <==> id == "latestVideos" || id == "popularVideos" || id == "playlists"
  {
    if id == "latestVideos" {
      assert AvailableSections[0].id == id;
    } else if id == "popularVideos" {
      assert AvailableSections[1].id == id;
    } else if id == "playlists" {
      assert AvailableSections[2].id == id;
    }
  }

  /** Every entry of the list is a catalogue id. */
  ghost predicate AllKnown(s: seq<string>) {
    forall k :: 0 <= k < |s| ==> IsKnownId(s[k])
  }

  /** No value occurs twice in `s`. */
  ghost predicate NoDuplicates<T>(s: seq<T>) {
    forall i, j :: 0 <= i < j < |s| ==> s[i] != s[j]
  }

  /** `r` can be obtained from `s` by deleting entries, so it keeps their relative order. */
  ghost predicate IsSubsequence<T>(r: seq<T>, s: seq<T>)
    decreases |s|
  {
    if s == [] then r == []
    else IsSubsequence(r, s[1..]) || (r != [] && r[0] == s[0] && IsSubsequence(r[1..], s[1..]))
  }

  /** No value occurs twice exactly when every value occurs at most once in the multiset. */
  lemma NoDuplicatesIffSingletons<T>(s: seq<T>)
    ensures NoDuplicates(s) <==> forall x :: multiset(s)[x] <= 1
  {
    if NoDuplicates(s) {
      NoDuplicatesSingletons(s);
    } else {
      var i, j :| 0 <= i < j < |s| && s[i] == s[j];
      RepeatedValueCount(s, i, j);
    }
  }

  lemma {:induction false} NoDuplicatesSingletons<T>(s: seq<T>)
    requires NoDuplicates(s)
    ensures forall x :: multiset(s)[x] <= 1
  {
    if s != [] {
      var t := s[1..];
      assert NoDuplicates(t) by {
        forall i, j | 0 <= i < j < |t| ensures t[i] != t[j] {
          assert t[i] == s[i + 1] && t[j] == s[j + 1];
        }
      }
      NoDuplicatesSingletons(t);
      assert s[0] !in t by {
        forall j | 0 <= j < |t| ensures t[j] != s[0] {
          assert t[j] == s[j + 1];
        }
      }
      assert s == [s[0]] + t;
      assert multiset(s) == multiset{s[0]} + multiset(t);
    }
  }

  lemma RepeatedValueCount<T>(s: seq<T>, i: nat, j: nat)
    requires i < j < |s| && s[i] == s[j]
    ensures multiset(s)[s[i]] >= 2
  {
    var u, v, w := s[..i], s[i + 1..j], s[j + 1..];
    assert s == u + [s[i]] + v + [s[j]] + w;
    assert multiset(s) == multiset(u) + multiset{s[i]} + multiset(v) + multiset{s[j]} + multiset(w);
  }

  /** Permuting a list keeps it free of duplicates. */
  lemma PermutationKeepsNoDuplicates<T>(s: seq<T>, r: seq<T>)
    requires multiset(r) == multiset(s) && NoDuplicates(s)
    ensures NoDuplicates(r)
  {
    NoDuplicatesIffSingletons(s);
    NoDuplicatesIffSingletons(r);
  }

  /** A subsequence is no larger, value by value, than the sequence it was taken from. */
  lemma {:induction false} SubsequenceMultiset<T>(r: seq<T>, s: seq<T>)
    requires IsSubsequence(r, s)
    ensures multiset(r) <= multiset(s)
    decreases |s|
  {
    if s != [] {
      assert s == [s[0]] + s[1..];
      if IsSubsequence(r, s[1..]) {
        SubsequenceMultiset(r, s[1..]);
      } else {
        SubsequenceMultiset(r[1..], s[1..]);
        assert r == [r[0]] + r[1..];
      }
    }
  }

  /** `s.filter((v) => v !== x)`. */
  function Without<T(==)>(s: seq<T>, x: T): (r: seq<T>)
    ensures x !in r
    ensures multiset(r) == multiset(s)[x := 0]
    ensures IsSubsequence(r, s)
    decreases |s|
  {
    if s == [] then []
    else
      var tail := Without(s[1..], x);
      assert s == [s[0]] + s[1..];
      if s[0] == x then tail else [s[0]] + tail
  }

  /**
   * The filter is the only way to delete every `x` and keep the rest in
   * order: any subsequence of `s` holding all of its other entries and no
   * `x` is the filtered list.
   */
  lemma {:induction false} WithoutUnique<T>(s: seq<T>, x: T, r: seq<T>)
    requires IsSubsequence(r, s) && multiset(r) == multiset(s)[x := 0]
    ensures r == Without(s, x)
    decreases |s|
  {
    if s != [] {
      assert s == [s[0]] + s[1..];
      assert multiset(s) == multiset{s[0]} + multiset(s[1..]);
      if s[0] == x {
        assert x !in multiset(r);
        if IsSubsequence(r, s[1..]) {
          WithoutUnique(s[1..], x, r);
        }
      } else if IsSubsequence(r, s[1..]) {
        SubsequenceMultiset(r, s[1..]);
        assert false;
      } else {
        assert r != [] && r[0] == s[0] && IsSubsequence(r[1..], s[1..]);
        assert r == [r[0]] + r[1..];
        assert multiset(r) == multiset{r[0]} + multiset(r[1..]);
        forall y ensures multiset(r[1..])[y] == multiset(s[1..])[x := 0][y] {
          assert multiset(r)[y] == multiset(s)[x := 0][y];
        }
        assert multiset(r[1..]) == multiset(s[1..])[x := 0];
        WithoutUnique(s[1..], x, r[1..]);
      }
    }
  }

  /** The checkbox handler: checking appends the id, unchecking filters every occurrence of it out. */
  function Toggle<T(==)>(prev: seq<T>, id: T, checked: bool): (r: seq<T>)
    ensures checked ==> |r| == |prev| + 1 && r[..|prev|] == prev && r[|prev|] == id
    ensures !checked ==> id !in r && IsSubsequence(r, prev) && multiset(r) == multiset(prev)[id := 0]
  {
    if checked then prev + [id] else Without(prev, id)
  }

  /** Toggling an id that is absent exactly when it is checked keeps the list free of duplicates. */
  lemma ToggleKeepsNoDuplicates<T>(prev: seq<T>, id: T, checked: bool)
    requires NoDuplicates(prev) && (checked ==> id !in prev)
    ensures NoDuplicates(Toggle(prev, id, checked))
  {
    var r := Toggle(prev, id, checked);
    NoDuplicatesIffSingletons(prev);
    NoDuplicatesIffSingletons(r);
    if checked {
      assert multiset(r) == multiset(prev) + multiset{id};
    }
  }

  /** Toggling a catalogue id keeps every entry a catalogue id. */
  lemma ToggleKeepsKnown(prev: seq<string>, id: string, checked: bool)
    requires AllKnown(prev) && IsKnownId(id)
    ensures AllKnown(Toggle(prev, id, checked))
  {
    var r := Toggle(prev, id, checked);
    if !checked {
      forall k | 0 <= k < |r| ensures IsKnownId(r[k]) {
        assert r[k] in multiset(r);
        assert r[k] in multiset(prev);
        var j :| 0 <= j < |prev| && prev[j] == r[k];
      }
    }
  }

  /** Checking a box and then unchecking it restores the list. */
  lemma {:induction false} ToggleOnThenOff<T>(prev: seq<T>, id: T)
    requires id !in prev
    ensures Toggle(Toggle(prev, id, true), id, false) == prev
  {
    var r := Toggle(Toggle(prev, id, true), id, false);
    assert IsSubsequence(prev, prev + [id]) by { SubsequenceOfAppend(prev, id); }
    assert (prev + [id])[..|prev|] == prev;
    assert multiset(prev + [id])[id := 0] == multiset(prev);
    WithoutUnique(prev + [id], id, prev);
  }

  /** Every sequence is a subsequence of itself with one more entry at the end. */
  lemma {:induction false} SubsequenceOfAppend<T>(s: seq<T>, x: T)
    ensures IsSubsequence(s, s + [x])
    decreases |s|
  {
    if s == [] {
      assert IsSubsequence<T>([], []);
      assert ([] + [x])[1..] == [];
    } else {
      SubsequenceOfAppend(s[1..], x);
      assert (s + [x])[1..] == s[1..] + [x];
    }
  }

  /** `s` with the entry at index `i` taken out (`splice(i, 1)`). */
  function RemoveAt<T>(s: seq<T>, i: nat): (r: seq<T>)
    requires i < |s|
    ensures |r| == |s| - 1
    ensures multiset(r) == multiset(s) - multiset{s[i]}
    ensures forall k :: 0 <= k < |r| ==> r[k] == if k < i then s[k] else s[k + 1]
  {
    assert s == s[..i] + [s[i]] + s[i + 1..];
    s[..i] + s[i + 1..]
  }

  /** `s` with `x` put in at index `i` (`splice(i, 0, x)`). */
  function InsertAt<T>(s: seq<T>, i: nat, x: T): (r: seq<T>)
    requires i <= |s|
    ensures |r| == |s| + 1 && r[i] == x
    ensures multiset(r) == multiset(s) + multiset{x}
    ensures forall k :: 0 <= k < |r| ==> r[k] == if k < i then s[k] else if k == i then x else s[k - 1]
    ensures RemoveAt(r, i) == s
  {
    var r := s[..i] + [x] + s[i..];
    assert r[..i] == s[..i] && r[i + 1..] == s[i..];
    assert s == s[..i] + s[i..];
    r
  }

  /**
   * The result of dragging the entry at `source` to `destination`: it
   * is a permutation of `s`, the moved entry sits at `destination`, and
   * the other entries keep their relative order.
   */
  function Moved<T>(s: seq<T>, source: nat, destination: nat): (r: seq<T>)
    requires source < |s| && destination < |s|
    ensures |r| == |s| && multiset(r) == multiset(s)
    ensures r[destination] == s[source]
    ensures RemoveAt(r, destination) == RemoveAt(s, source)
  {
    var rest := RemoveAt(s, source);
    InsertAt(rest, destination, s[source])
  }

  /** Dropping an entry where it was picked up changes nothing. */
  lemma MovedToSamePlace<T>(s: seq<T>, i: nat)
    requires i < |s|
    ensures Moved(s, i, i) == s
  {
    assert s == s[..i] + [s[i]] + s[i + 1..];
  }

  /** Moving keeps the list free of duplicates and made of catalogue ids. */
  lemma MovedKeepsInvariants(s: seq<string>, source: nat, destination: nat)
    requires source < |s| && destination < |s|
    ensures NoDuplicates(s) ==> NoDuplicates(Moved(s, source, destination))
    ensures AllKnown(s) ==> AllKnown(Moved(s, source, destination))
  {
    var r := Moved(s, source, destination);
    if NoDuplicates(s) { PermutationKeepsNoDuplicates(s, r); }
    if AllKnown(s) {
      forall k | 0 <= k < |r| ensures IsKnownId(r[k]) {
        assert r[k] in multiset(s);
        var j :| 0 <= j < |s| && s[j] == r[k];
      }
    }
  }

  /** `splice(i, 1)` in place: the entries after `i` move one step left; the last slot keeps its old value. */
  method SpliceOut<T>(a: array<T>, i: nat)
    requires i < a.Length
    modifies a
    ensures a[..a.Length - 1] == RemoveAt(old(a[..]), i)
    ensures a[a.Length - 1] == old(a[a.Length - 1])
  {
    ghost var s := a[..];
    var k := i;
    while k < a.Length - 1
      invariant i <= k <= a.Length - 1
      invariant forall m :: 0 <= m < i ==> a[m] == s[m]
      invariant forall m :: i <= m < k ==> a[m] == s[m + 1]
      invariant forall m :: k < m < a.Length ==> a[m] == s[m]
      invariant a[a.Length - 1] == s[a.Length - 1]
    {
      a[k] := a[k + 1];
      k := k + 1;
    }
    ghost var r := RemoveAt(s, i);
    assert forall m :: 0 <= m < a.Length - 1 ==> a[m] == r[m];
  }

  /** A sequence that agrees with `InsertAt(s, i, x)` at every index is that sequence. */
  lemma InsertAtPointwise<T>(s: seq<T>, i: nat, x: T, t: seq<T>)
    requires i <= |s| && |t| == |s| + 1
    requires forall m {:trigger t[m]} :: 0 <= m < |t| ==> t[m] == if m < i then s[m] else if m == i then x else s[m - 1]
    ensures t == InsertAt(s, i, x)
  {
    var r := s[..i] + [x] + s[i..];
    forall m | 0 <= m < |t| ensures t[m] == r[m] {
      assert t[m] == if m < i then s[m] else if m == i then x else s[m - 1];
      if m < i {
        assert r[m] == s[..i][m];
      } else if m > i {
        assert r[m] == s[i..][m - i - 1];
      }
    }
    assert t == r;
  }

  /** `splice(i, 0, x)` in place on the first `a.Length - 1` slots: the entries from `i` on move one step right. */
  method SpliceIn<T>(a: array<T>, i: nat, x: T)
    requires i < a.Length
    modifies a
    ensures a[..] == InsertAt(old(a[..a.Length - 1]), i, x)
  {
    ghost var s := a[..a.Length - 1];
    var k := a.Length - 1;
    while k > i
      invariant i <= k <= a.Length - 1
      invariant forall m :: 0 <= m < k ==> a[m] == s[m]
      invariant forall m :: k < m < a.Length ==> a[m] == s[m - 1]
    {
      a[k] := a[k - 1];
      k := k - 1;
    }
    a[i] := x;
    InsertAtPointwise(s, i, x, a[..]);
  }

  /**
   * The two `splice` calls of the drag handler, on the array that
   * `Array.from` produced: take out the entry at `source`, then put it
   * back at `destination`.
   */
  method Reorder<T>(a: array<T>, source: nat, destination: nat)
    requires source < a.Length && destination < a.Length
    modifies a
    ensures a[..] == Moved(old(a[..]), source, destination)
  {
    var item := a[source];
    SpliceOut(a, source);
    SpliceIn(a, destination, item);
  }

  /** `Array.from(items)` followed by the two splices; the staged list itself is left as it was. */
  method Reordered<T>(items: seq<T>, source: nat, destination: nat) returns (r: seq<T>)
    requires source < |items| && destination < |items|
    ensures r == Moved(items, source, destination)
  {
    var a := new T[|items|](k requires 0 <= k < |items| => items[k]);
    assert a[..] == items;
    Reorder(a, source, destination);
    r := a[..];
  }

  /** What the drag-and-drop library reports when a drag ends: the source index and, unless dropped outside, the destination index. */
  datatype DragResult = DragResult(source: nat, destination: Option<nat>)

  /** The drag result is one the list can take: with a destination, both indices are in range. */
  predicate InRange<T>(items: seq<T>, result: DragResult) {
    result.destination.Some? ==> result.source < |items| && result.destination.value < |items|
  }

  /** `onDragEnd`: a drop outside the list leaves it as it was, any other drop moves one entry. */
  method OnDragEnd<T>(items: seq<T>, result: DragResult) returns (r: seq<T>)
    requires InRange(items, result)
    ensures result.destination.None? ==> r == items
    ensures result.destination.Some? ==> r == Moved(items, result.source, result.destination.value)
  {
    if result.destination.None? {
      return items;
    }
    r := Reordered(items, result.source, result.destination.value);
  }
}
