/** Lists: without repeats, of one value repeated, and counted. */
module Lists {
  datatype Option<T> = None | Some(value: T)

  ghost predicate NoDup<T>(s: seq<T>) {
    forall i, j :: 0 <= i < j < |s| ==> s[i] != s[j]
  }

  function RemoveAt<T>(s: seq<T>, i: nat): seq<T>
    requires i < |s|
  {
    s[..i] + s[i + 1..]
  }

  function Index<T(==)>(s: seq<T>, x: T): (i: nat)
    requires x in s
    ensures i < |s| && s[i] == x
  {
    if s[0] == x then 0 else 1 + Index(s[1..], x)
  }

  lemma RemoveAtNoDup<T>(s: seq<T>, i: nat)
    requires NoDup(s) && i < |s|
    ensures NoDup(RemoveAt(s, i))
    ensures forall x :: x in RemoveAt(s, i) <==> x in s && x != s[i]
  {
    var t := RemoveAt(s, i);
    assert forall j :: 0 <= j < |t| ==> t[j] == s[if j < i then j else j + 1];
    forall x | x in s && x != s[i] ensures x in t {
      var j :| 0 <= j < |s| && s[j] == x;
      assert t[if j < i then j else j - 1] == x;
    }
  }

  lemma AppendNoDup<T>(s: seq<T>, x: T)
    requires NoDup(s) && x !in s
    ensures NoDup(s + [x])
    ensures forall y :: y in s + [x] <==> y in s || y == x
  {
    var t := s + [x];
    forall i, j | 0 <= i < j < |t| ensures t[i] != t[j] {
      assert i < |s| && t[i] == s[i] && s[i] in s;
    }
  }

  /** Distinct numbers below n are at most n. */
  lemma {:induction false} PigeonHole(s: seq<nat>, n: nat)
    requires NoDup(s) && forall k :: k in s ==> k < n
    ensures |s| <= n
    decreases n
  {
    if s == [] {
    } else if n - 1 in s {
      var i := Index(s, n - 1);
      RemoveAtNoDup(s, i);
      PigeonHole(RemoveAt(s, i), n - 1);
    } else {
      var k := s[0];
      assert k in s;
      PigeonHole(s, n - 1);
    }
  }

  /** A list of distinct slots shorter than n misses one of them. */
  lemma {:induction false} MissingSlot(s: seq<nat>, n: nat) returns (k: nat)
    requires NoDup(s) && |s| < n
    ensures k < n && k !in s
    decreases n
  {
    if n - 1 !in s {
      k := n - 1;
    } else {
      var i := Index(s, n - 1);
      RemoveAtNoDup(s, i);
      k := MissingSlot(RemoveAt(s, i), n - 1);
    }
  }

  lemma DropHeadNoDup<T>(s: seq<T>)
    requires NoDup(s) && s != []
    ensures NoDup(s[1..])
    ensures forall x :: x in s <==> x == s[0] || x in s[1..]
    ensures s[0] !in s[1..]
  {
    assert s == [s[0]] + s[1..];
  }

  lemma InsertNoDup<T>(s: seq<T>, j: nat, x: T)
    requires NoDup(s) && j <= |s| && x !in s
    ensures NoDup(s[..j] + [x] + s[j..])
    ensures forall y :: y in s[..j] + [x] + s[j..] <==> y in s || y == x
  {
    var t := s[..j] + [x] + s[j..];
    assert s == s[..j] + s[j..];
    forall a, b | 0 <= a < b < |t| ensures t[a] != t[b] {
      if a == j {
        assert t[b] == s[b - 1];
      } else if b == j {
        assert t[a] == s[a];
      } else {
        assert t[a] == s[if a < j then a else a - 1] && t[b] == s[if b < j then b else b - 1];
      }
    }
  }

  lemma {:induction false} ListCardinality(list: seq<int>, s: set<int>)
    requires NoDup(list) && forall c :: c in list <==> c in s
    ensures |list| == |s|
  {
    if list == [] {
      assert forall c :: c !in s;
      assert s == {};
    } else {
      DropHeadNoDup(list);
      var c := list[0];
      assert c in list;
      ListCardinality(list[1..], s - {c});
    }
  }

  /** Numbers below n that are not in `free`. */
  ghost function UsedSlots(free: seq<nat>, n: nat): set<nat> {
    set k: nat | k < n && k !in free
  }

  /** Each slot below n is either free or used. */
  lemma {:induction false} UsedSlotsCount(free: seq<nat>, n: nat)
    requires NoDup(free) && forall k :: k in free ==> k < n
    ensures |UsedSlots(free, n)| == n - |free|
    decreases n
  {
    if n == 0 {
      PigeonHole(free, n);
    } else if n - 1 in free {
      var i := Index(free, n - 1);
      RemoveAtNoDup(free, i);
      UsedSlotsCount(RemoveAt(free, i), n - 1);
      assert UsedSlots(free, n) == UsedSlots(RemoveAt(free, i), n - 1);
    } else {
      UsedSlotsCount(free, n - 1);
      assert UsedSlots(free, n) == UsedSlots(free, n - 1) + {n - 1};
    }
  }

  /** Sets that correspond one to one have the same size. */
  lemma {:induction false} SameCount<T, U>(ps: set<T>, ks: set<U>, at: map<T, U>)
    requires forall p :: p in ps ==> p in at && at[p] in ks
    requires forall p, q :: p in ps && q in ps && p != q ==> at[p] != at[q]
    requires forall k :: k in ks ==> exists p :: p in ps && at[p] == k
    ensures |ps| == |ks|
    decreases ps
  {
    if ps == {} {
      assert forall k :: k !in ks;
      assert ks == {};
    } else {
      var p :| p in ps;
      var k := at[p];
      forall l | l in ks - {k} ensures exists q :: q in ps - {p} && at[q] == l {
        var q :| q in ps && at[q] == l;
      }
      SameCount(ps - {p}, ks - {k}, at);
      assert |ps - {p}| == |ps| - 1 && |ks - {k}| == |ks| - 1;
    }
  }

  lemma FewerMembers<T>(s: set<T>, t: set<T>)
    requires s < t
    ensures |s| < |t|
  {
    var x :| x in t && x !in s;
    assert s <= t - {x};
    NoMoreMembers(s, t - {x});
  }

  lemma {:induction false} NoMoreMembers<T>(s: set<T>, t: set<T>)
    requires s <= t
    ensures |s| <= |t|
  {
    if s != {} {
      var x :| x in s;
      NoMoreMembers(s - {x}, t - {x});
    }
  }

  function Repeat<T>(v: T, n: nat): (r: seq<T>)
    ensures |r| == n && forall i :: 0 <= i < n ==> r[i] == v
  {
    if n == 0 then [] else [v] + Repeat(v, n - 1)
  }
}
