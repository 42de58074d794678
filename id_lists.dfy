/** Lists of character ids. `Without` is the service's
    `filter(favId => favId !== id)`; membership (`includes`) and appending
    (`[...xs, id]`) are Dafny's own `in` and `+`. The lemmas state what these
    operations keep: order, contents and freedom from duplicates. */
module IdLists {

  /** No id occurs twice. */
  predicate NoDuplicates(s: seq<int>) {
    forall i, j :: 0 <= i < j < |s| ==> s[i] != s[j]
  }

  /** `r` can be obtained from `s` by deleting elements: the elements of `r`
      occur in `s` in the same relative order. */
  predicate IsSubsequence(r: seq<int>, s: seq<int>)
    decreases |s|
  {
    r == [] ||
    (s != [] && ((r[0] == s[0] && IsSubsequence(r[1..], s[1..])) || IsSubsequence(r, s[1..])))
  }

  /** The list with every occurrence of `id` dropped and the other elements
      kept in their original order. */
  function Without(s: seq<int>, id: int): (r: seq<int>)
    ensures forall x :: x in r <==> x in s && x != id
    ensures multiset(r) == multiset(s)[id := 0]
    ensures IsSubsequence(r, s)
  {
    if s == [] then []
    else
      assert s == [s[0]] + s[1..];
      if s[0] == id then Without(s[1..], id) else [s[0]] + Without(s[1..], id)
  }

  /** Dropping an id that does not occur changes nothing. */
  lemma {:induction false} WithoutAbsent(s: seq<int>, id: int)
    requires id !in s
    ensures Without(s, id) == s
  {
    if s != [] {
      WithoutAbsent(s[1..], id);
    }
  }

  /** Dropping the same id twice is the same as dropping it once. */
  lemma WithoutIdempotent(s: seq<int>, id: int)
    ensures Without(Without(s, id), id) == Without(s, id)
  {
    WithoutAbsent(Without(s, id), id);
  }

  /** A list without duplicates stays without duplicates when an id is dropped. */
  lemma {:induction false} WithoutKeepsNoDuplicates(s: seq<int>, id: int)
    requires NoDuplicates(s)
    ensures NoDuplicates(Without(s, id))
  {
    if s != [] {
      assert NoDuplicates(s[1..]) by {
        forall i, j | 0 <= i < j < |s| - 1 ensures s[1..][i] != s[1..][j] {
          assert s[i + 1] != s[j + 1];
        }
      }
      WithoutKeepsNoDuplicates(s[1..], id);
      if s[0] != id {
        assert s[0] !in s[1..] by {
          forall k | 0 <= k < |s| - 1 ensures s[1..][k] != s[0] {
            assert s[0] != s[k + 1];
          }
        }
        ConsKeepsNoDuplicates(s[0], Without(s[1..], id));
      }
    }
  }

  /** Putting an absent id in front keeps a list free of duplicates. */
  lemma ConsKeepsNoDuplicates(x: int, s: seq<int>)
    requires NoDuplicates(s) && x !in s
    ensures NoDuplicates([x] + s)
  {
    forall i, j | 0 <= i < j < |s| + 1 ensures ([x] + s)[i] != ([x] + s)[j] {
      if i > 0 {
        assert ([x] + s)[i] == s[i - 1] && ([x] + s)[j] == s[j - 1];
      } else {
        assert ([x] + s)[j] == s[j - 1];
      }
    }
  }

  /** Appending an absent id at the end keeps a list free of duplicates. */
  lemma AppendKeepsNoDuplicates(s: seq<int>, x: int)
    requires NoDuplicates(s) && x !in s
    ensures NoDuplicates(s + [x])
  {
    forall i, j | 0 <= i < j < |s| + 1 ensures (s + [x])[i] != (s + [x])[j] {
      assert (s + [x])[i] == s[i];
      if j == |s| {
        assert s[i] in s;
      }
    }
  }

  /** Each id of `s` once, at the place of its first occurrence. */
  function FirstOccurrences(s: seq<int>): (r: seq<int>)
    ensures forall x :: x in r <==> x in s
    ensures NoDuplicates(r)
    decreases |s|
  {
    if s == [] then []
    else
      var init, last := s[..|s| - 1], s[|s| - 1];
      assert s == init + [last];
      if last in init then FirstOccurrences(init)
      else
        AppendKeepsNoDuplicates(FirstOccurrences(init), last);
        FirstOccurrences(init) + [last]
  }
}
