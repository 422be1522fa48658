/** Null-terminated linked lists: a map of `next` fields seen as a sequence of addresses. */
module Chains {
  import opened Machine
  import opened Lists

  /** What a pointer to the list holds. */
  function First(s: seq<int>): int {
    if s == [] then NULL else s[0]
  }

  function NextIn(s: seq<int>, i: nat): int
    requires i < |s|
  {
    if i + 1 < |s| then s[i + 1] else NULL
  }

  predicate LinkAt(next: map<int, int>, s: seq<int>, i: nat)
    requires i < |s|
  {
    s[i] in next && next[s[i]] == NextIn(s, i)
  }

  /** Do the `next` fields of the members of s link them in order, ending in NULL? */
  ghost predicate Linked(next: map<int, int>, s: seq<int>) {
    forall i :: 0 <= i < |s| ==> LinkAt(next, s, i)
  }

  /** Changes elsewhere leave a list alone. */
  lemma LinkedFrame(next: map<int, int>, next': map<int, int>, s: seq<int>)
    requires Linked(next, s)
    requires forall i {:trigger s[i]} :: 0 <= i < |s| ==> s[i] in next ==> s[i] in next' && next'[s[i]] == next[s[i]]
    ensures Linked(next', s)
  {
    forall i | 0 <= i < |s| ensures LinkAt(next', s, i) {
      assert LinkAt(next, s, i);
    }
  }

  /** Pointing the last member at x, whose own `next` is NULL, appends x. */
  lemma LinkedAppend(next: map<int, int>, next': map<int, int>, s: seq<int>, x: int)
    requires Linked(next, s) && x in next' && next'[x] == NULL
    requires s != [] ==> s[|s| - 1] in next' && next'[s[|s| - 1]] == x
    requires forall i {:trigger s[i]} :: 0 <= i < |s| - 1 ==> s[i] in next ==>
      s[i] in next' && next'[s[i]] == next[s[i]]
    ensures Linked(next', s + [x])
  {
    var t := s + [x];
    forall i | 0 <= i < |t| ensures LinkAt(next', t, i) {
      if i < |s| {
        assert LinkAt(next, s, i);
      }
    }
  }

  /** Pointing the member before s[i] past it removes s[i]. */
  lemma LinkedRemove(next: map<int, int>, next': map<int, int>, s: seq<int>, i: nat)
    requires Linked(next, s) && i < |s|
    requires i > 0 ==> s[i - 1] in next' && next'[s[i - 1]] == NextIn(s, i)
    requires forall j {:trigger s[j]} :: 0 <= j < |s| && j != i && j != i - 1 ==>
      s[j] in next ==> s[j] in next' && next'[s[j]] == next[s[j]]
    ensures Linked(next', RemoveAt(s, i))
  {
    var t := RemoveAt(s, i);
    forall j | 0 <= j < |t| ensures LinkAt(next', t, j) {
      if j < i {
        assert LinkAt(next, s, j);
      } else {
        assert LinkAt(next, s, j + 1);
        assert t[j] == s[j + 1];
        assert j + 1 < |t| ==> t[j + 1] == s[j + 2];
      }
    }
  }

  lemma LinkedTail(next: map<int, int>, s: seq<int>)
    requires Linked(next, s) && s != []
    ensures s[0] in next && next[s[0]] == First(s[1..]) && Linked(next, s[1..])
  {
    assert LinkAt(next, s, 0);
    forall i | 0 <= i < |s[1..]| ensures LinkAt(next, s[1..], i) {
      assert LinkAt(next, s, i + 1);
    }
  }

  ghost predicate NonNull(s: seq<int>) {
    forall i :: 0 <= i < |s| ==> s[i] != NULL
  }

  lemma NotInNonNull(s: seq<int>)
    requires NULL !in s
    ensures NonNull(s)
  {
    forall i | 0 <= i < |s| ensures s[i] != NULL {
      var x := s[i];
      assert x in s;
    }
  }
}
