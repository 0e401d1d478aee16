/** Python's `sorted(xs, key=...)` (a stable sort) and `itertools.groupby`
    (runs of equal keys), with the properties the exporters rely on, and the
    `min`/`max` of a non-empty list of numbers. */
module Seqs {

  /** Concatenation is associative. */
  lemma AppendAssoc<T>(a: seq<T>, b: seq<T>, c: seq<T>)
    ensures (a + b) + c == a + (b + c)
  {
  }

  ghost predicate SortedBy<T>(s: seq<T>, key: T -> int) {
    forall i, j :: 0 <= i < j < |s| ==> key(s[i]) <= key(s[j])
  }

  /** The elements of `s` whose key is `k`, in their order in `s`. */
  function Filter<T>(s: seq<T>, key: T -> int, k: int): seq<T> {
    if |s| == 0 then []
    else Filter(s[..|s| - 1], key, k) + (if key(s[|s| - 1]) == k then [s[|s| - 1]] else [])
  }

  /** Puts `x` after every element of `s` whose key is not above its own. */
  function Insert<T>(s: seq<T>, x: T, key: T -> int): (r: seq<T>)
    ensures |r| == |s| + 1
  {
    if |s| == 0 then [x]
    else if key(x) < key(s[|s| - 1]) then Insert(s[..|s| - 1], x, key) + [s[|s| - 1]]
    else s + [x]
  }

  /** `sorted(s, key=key)` */
  function SortBy<T>(s: seq<T>, key: T -> int): (r: seq<T>)
    ensures |r| == |s|
  {
    if |s| == 0 then [] else Insert(SortBy(s[..|s| - 1], key), s[|s| - 1], key)
  }

  lemma {:induction false} InsertBound<T>(s: seq<T>, x: T, key: T -> int, m: int)
    requires forall i :: 0 <= i < |s| ==> key(s[i]) <= m
    requires key(x) <= m
    ensures forall i :: 0 <= i < |Insert(s, x, key)| ==> key(Insert(s, x, key)[i]) <= m
    decreases |s|
  {
    if |s| > 0 && key(x) < key(s[|s| - 1]) {
      InsertBound(s[..|s| - 1], x, key, m);
    }
  }

  lemma {:induction false} InsertSorted<T>(s: seq<T>, x: T, key: T -> int)
    requires SortedBy(s, key)
    ensures SortedBy(Insert(s, x, key), key)
    decreases |s|
  {
    if |s| > 0 && key(x) < key(s[|s| - 1]) {
      var init := s[..|s| - 1];
      InsertSorted(init, x, key);
      InsertBound(init, x, key, key(s[|s| - 1]));
    }
  }

  lemma FilterAppend<T>(s: seq<T>, x: T, key: T -> int, k: int)
    ensures Filter(s + [x], key, k) == Filter(s, key, k) + (if key(x) == k then [x] else [])
  {
    assert (s + [x])[..|s|] == s;
  }

  /** Inserting keeps, for every key, the order of the elements with that key,
      and puts the new element after the old ones with the same key. */
  lemma {:induction false} InsertFilter<T>(s: seq<T>, x: T, key: T -> int, k: int)
    requires SortedBy(s, key)
    ensures Filter(Insert(s, x, key), key, k) == Filter(s, key, k) + (if key(x) == k then [x] else [])
    decreases |s|
  {
    if |s| == 0 {
      FilterAppend([], x, key, k);
    } else if key(x) < key(s[|s| - 1]) {
      var init, last := s[..|s| - 1], s[|s| - 1];
      InsertFilter(init, x, key, k);
      FilterAppend(Insert(init, x, key), last, key, k);
      assert s == init + [last];
      FilterAppend(init, last, key, k);
    } else {
      FilterAppend(s, x, key, k);
    }
  }

  /** `sorted` is stable: the result is ordered by key and, for every key,
      holds exactly the elements with that key in their original order. */
  lemma {:induction false} SortByCorrect<T>(s: seq<T>, key: T -> int)
    ensures SortedBy(SortBy(s, key), key)
    ensures forall k :: Filter(SortBy(s, key), key, k) == Filter(s, key, k)
    decreases |s|
  {
    if |s| > 0 {
      var init, last := s[..|s| - 1], s[|s| - 1];
      SortByCorrect(init, key);
      InsertSorted(SortBy(init, key), last, key);
      forall k ensures Filter(SortBy(s, key), key, k) == Filter(s, key, k) {
        InsertFilter(SortBy(init, key), last, key, k);
        assert s == init + [last];
        FilterAppend(init, last, key, k);
      }
    }
  }

  /** A list already in key order is returned unchanged. */
  lemma {:induction false} SortBySorted<T>(s: seq<T>, key: T -> int)
    requires SortedBy(s, key)
    ensures SortBy(s, key) == s
    decreases |s|
  {
    if |s| > 0 {
      var init := s[..|s| - 1];
      assert SortedBy(init, key);
      SortBySorted(init, key);
      assert init + [s[|s| - 1]] == s;
    }
  }

  // ---------------------------------------------------------------------
  // itertools.groupby

  datatype Group<K, T> = Group(key: K, members: seq<T>)

  /** `itertools.groupby(s, key)`: maximal runs of consecutive elements with
      equal keys. */
  function GroupBy<T, K(==)>(s: seq<T>, key: T -> K): (gs: seq<Group<K, T>>)
    ensures |s| == 0 <==> |gs| == 0
    ensures |s| > 0 ==> gs[|gs| - 1].key == key(s[|s| - 1])
    ensures forall g :: 0 <= g < |gs| ==> |gs[g].members| > 0
    ensures forall g, m :: 0 <= g < |gs| && 0 <= m < |gs[g].members| ==> key(gs[g].members[m]) == gs[g].key
  {
    if |s| == 0 then []
    else
      var rest := GroupBy(s[..|s| - 1], key);
      var x := s[|s| - 1];
      if |rest| > 0 && rest[|rest| - 1].key == key(x) then
        rest[..|rest| - 1] + [Group(key(x), rest[|rest| - 1].members + [x])]
      else
        rest + [Group(key(x), [x])]
  }

  /** The runs are maximal: neighbouring groups have different keys. */
  lemma {:induction false} GroupByMaximal<T, K>(s: seq<T>, key: T -> K, g: int)
    requires 0 < g < |GroupBy(s, key)|
    ensures GroupBy(s, key)[g - 1].key != GroupBy(s, key)[g].key
    decreases |s|
  {
    var init := s[..|s| - 1];
    var rest := GroupBy(init, key);
    GroupByUnfold(s, key);
    if g < |rest| {
      GroupByMaximal(init, key, g);
    }
  }

  function Members<K, T>(gs: seq<Group<K, T>>): seq<T> {
    if gs == [] then [] else Members(gs[..|gs| - 1]) + gs[|gs| - 1].members
  }

  /** The groups hold every element, once, in the original order. */
  lemma {:induction false} GroupByMembers<T, K>(s: seq<T>, key: T -> K)
    ensures Members(GroupBy(s, key)) == s
    decreases |s|
  {
    if |s| > 0 {
      var init, x := s[..|s| - 1], s[|s| - 1];
      GroupByMembers(init, key);
      GroupByUnfold(s, key);
      MembersGrow(GroupBy(init, key), GroupBy(s, key), x, key(x));
      assert s == init + [x];
    }
  }

  /** The last element joins the last group when it has that group's key,
      and opens a group of its own otherwise. */
  lemma GroupByUnfold<T, K>(s: seq<T>, key: T -> K)
    requires |s| > 0
    ensures var rest, x := GroupBy(s[..|s| - 1], key), s[|s| - 1];
      if |rest| > 0 && rest[|rest| - 1].key == key(x)
      then GroupBy(s, key) == rest[..|rest| - 1] + [Group(key(x), rest[|rest| - 1].members + [x])]
      else GroupBy(s, key) == rest + [Group(key(x), [x])]
  {
  }

  /** Appending an element to the last group, or as a group of its own,
      appends it to the members. */
  lemma MembersGrow<K, T>(rest: seq<Group<K, T>>, gs: seq<Group<K, T>>, x: T, k: K)
    requires (|rest| > 0 && gs == rest[..|rest| - 1] + [Group(k, rest[|rest| - 1].members + [x])]) || gs == rest + [Group(k, [x])]
    ensures Members(gs) == Members(rest) + [x]
  {
    assert gs != [];
    if |rest| > 0 && gs == rest[..|rest| - 1] + [Group(k, rest[|rest| - 1].members + [x])] {
      var front := rest[..|rest| - 1];
      assert gs[..|gs| - 1] == front;
      assert Members(rest) == Members(front) + rest[|rest| - 1].members;
    } else {
      assert gs[..|gs| - 1] == rest;
    }
  }

  /** Grouping a list sorted by an integer key gives strictly increasing
      group keys: one group per distinct key, in ascending order. */
  lemma {:induction false} GroupBySortedKeys<T>(s: seq<T>, key: T -> int)
    requires SortedBy(s, key)
    ensures forall g, h :: 0 <= g < h < |GroupBy(s, key)| ==> GroupBy(s, key)[g].key < GroupBy(s, key)[h].key
    decreases |s|
  {
    if |s| > 0 {
      var init, x := s[..|s| - 1], s[|s| - 1];
      assert SortedBy(init, key);
      GroupBySortedKeys(init, key);
      var rest := GroupBy(init, key);
      var gs := GroupBy(s, key);
      if |rest| > 0 {
        assert rest[|rest| - 1].key == key(init[|init| - 1]);
        assert key(init[|init| - 1]) <= key(x);
      }
      forall g, h | 0 <= g < h < |gs| ensures gs[g].key < gs[h].key {
        if h < |gs| - 1 || (|rest| > 0 && rest[|rest| - 1].key == key(x)) {
          assert gs[g].key == rest[g].key;
          if h < |rest| {
            assert gs[h].key == rest[h].key;
          }
        } else {
          assert gs[g].key == rest[g].key;
        }
      }
    }
  }

  lemma {:induction false} FilterNone<T>(s: seq<T>, key: T -> int, k: int)
    requires forall i :: 0 <= i < |s| ==> key(s[i]) != k
    ensures Filter(s, key, k) == []
    decreases |s|
  {
    if |s| > 0 {
      FilterNone(s[..|s| - 1], key, k);
    }
  }

  /** The filter keeps exactly the elements with the key. */
  lemma {:induction false} FilterIn<T>(s: seq<T>, key: T -> int, k: int, x: T)
    ensures x in Filter(s, key, k) <==> x in s && key(x) == k
    decreases |s|
  {
    if |s| > 0 {
      var init := s[..|s| - 1];
      FilterIn(init, key, k, x);
      assert s == init + [s[|s| - 1]];
    }
  }

  /** Every element of the groups is in one of them. */
  lemma {:induction false} MembersIn<K, T>(gs: seq<Group<K, T>>, x: T)
    requires x in Members(gs)
    ensures exists g :: 0 <= g < |gs| && x in gs[g].members
    decreases |gs|
  {
    var init := gs[..|gs| - 1];
    if x !in gs[|gs| - 1].members {
      MembersIn(init, x);
      var g :| 0 <= g < |init| && x in init[g].members;
      assert gs[g] == init[g];
    }
  }

  /** The members of a group are elements of the grouped list. */
  lemma GroupByIn<T, K>(s: seq<T>, key: T -> K, g: int, m: int)
    requires 0 <= g < |GroupBy(s, key)| && 0 <= m < |GroupBy(s, key)[g].members|
    ensures GroupBy(s, key)[g].members[m] in s
  {
    GroupByMembers(s, key);
    MembersContain(GroupBy(s, key), g, m);
  }

  lemma {:induction false} MembersContain<K, T>(gs: seq<Group<K, T>>, g: int, m: int)
    requires 0 <= g < |gs| && 0 <= m < |gs[g].members|
    ensures gs[g].members[m] in Members(gs)
    decreases |gs|
  {
    if g < |gs| - 1 {
      MembersContain(gs[..|gs| - 1], g, m);
    }
  }

  /** Sorting keeps the elements. */
  lemma SortByMembers<T>(s: seq<T>, key: T -> int, x: T)
    ensures x in SortBy(s, key) <==> x in s
  {
    SortByCorrect(s, key);
    FilterIn(SortBy(s, key), key, key(x), x);
    FilterIn(s, key, key(x), x);
  }

  /** The group an element of the list is in, which has its key. */
  lemma GroupOf<T, K>(s: seq<T>, key: T -> K, x: T) returns (g: int)
    requires x in s
    ensures 0 <= g < |GroupBy(s, key)| && x in GroupBy(s, key)[g].members && GroupBy(s, key)[g].key == key(x)
  {
    GroupByMembers(s, key);
    MembersIn(GroupBy(s, key), x);
    g :| 0 <= g < |GroupBy(s, key)| && x in GroupBy(s, key)[g].members;
  }

  /** In a list sorted by key, each group holds exactly the elements with
      its key, in their order. */
  lemma {:induction false} GroupBySortedFilter<T>(s: seq<T>, key: T -> int)
    requires SortedBy(s, key)
    ensures forall g :: 0 <= g < |GroupBy(s, key)| ==> GroupBy(s, key)[g].members == Filter(s, key, GroupBy(s, key)[g].key)
    decreases |s|
  {
    if |s| > 0 {
      var init, x := s[..|s| - 1], s[|s| - 1];
      assert SortedBy(init, key);
      GroupBySortedFilter(init, key);
      GroupBySortedKeys(init, key);
      assert s == init + [x];
      forall g | 0 <= g < |GroupBy(s, key)| ensures GroupBy(s, key)[g].members == Filter(s, key, GroupBy(s, key)[g].key) {
        GroupStep(init, x, key, g);
      }
    }
  }

  /** One step of `GroupBySortedFilter`: group `g` after appending `x`. */
  lemma GroupStep<T>(init: seq<T>, x: T, key: T -> int, g: int)
    requires SortedBy(init + [x], key)
    requires forall h :: 0 <= h < |GroupBy(init, key)| ==> GroupBy(init, key)[h].members == Filter(init, key, GroupBy(init, key)[h].key)
    requires forall h, h' :: 0 <= h < h' < |GroupBy(init, key)| ==> GroupBy(init, key)[h].key < GroupBy(init, key)[h'].key
    requires 0 <= g < |GroupBy(init + [x], key)|
    ensures GroupBy(init + [x], key)[g].members == Filter(init + [x], key, GroupBy(init + [x], key)[g].key)
  {
    var s := init + [x];
    assert s[..|s| - 1] == init && s[|s| - 1] == x;
    var rest := GroupBy(init, key);
    if |rest| > 0 && rest[|rest| - 1].key == key(x) {
      GroupJoins(init, x, key, g);
    } else {
      GroupOpens(init, x, key, g);
    }
  }

  /** `GroupStep` when `x` joins the last group. */
  lemma GroupJoins<T>(init: seq<T>, x: T, key: T -> int, g: int)
    requires var rest := GroupBy(init, key);
      |rest| > 0 && rest[|rest| - 1].key == key(x) &&
      GroupBy(init + [x], key) == rest[..|rest| - 1] + [Group(key(x), rest[|rest| - 1].members + [x])]
    requires forall h :: 0 <= h < |GroupBy(init, key)| ==> GroupBy(init, key)[h].members == Filter(init, key, GroupBy(init, key)[h].key)
    requires forall h, h' :: 0 <= h < h' < |GroupBy(init, key)| ==> GroupBy(init, key)[h].key < GroupBy(init, key)[h'].key
    requires 0 <= g < |GroupBy(init + [x], key)|
    ensures GroupBy(init + [x], key)[g].members == Filter(init + [x], key, GroupBy(init + [x], key)[g].key)
  {
    var rest, gs := GroupBy(init, key), GroupBy(init + [x], key);
    FilterAppend(init, x, key, gs[g].key);
    if g < |gs| - 1 {
      assert gs[g] == rest[g];
      OtherKey(rest, g, key(x));
    }
  }

  /** `GroupStep` when `x` opens a group of its own. */
  lemma GroupOpens<T>(init: seq<T>, x: T, key: T -> int, g: int)
    requires SortedBy(init + [x], key)
    requires var rest := GroupBy(init, key);
      (|rest| > 0 ==> rest[|rest| - 1].key != key(x) && rest[|rest| - 1].key == key(init[|init| - 1])) &&
      GroupBy(init + [x], key) == rest + [Group(key(x), [x])]
    requires forall h :: 0 <= h < |GroupBy(init, key)| ==> GroupBy(init, key)[h].members == Filter(init, key, GroupBy(init, key)[h].key)
    requires forall h, h' :: 0 <= h < h' < |GroupBy(init, key)| ==> GroupBy(init, key)[h].key < GroupBy(init, key)[h'].key
    requires 0 <= g < |GroupBy(init + [x], key)|
    ensures GroupBy(init + [x], key)[g].members == Filter(init + [x], key, GroupBy(init + [x], key)[g].key)
  {
    var s := init + [x];
    var rest, gs := GroupBy(init, key), GroupBy(s, key);
    FilterAppend(init, x, key, gs[g].key);
    assert |rest| > 0 ==> key(s[|init| - 1]) <= key(s[|s| - 1]);
    if g < |rest| {
      assert gs[g] == rest[g];
      OtherKey(rest, g, key(x));
    } else {
      NewKey(init, x, key);
    }
  }

  lemma OtherKey<T>(gs: seq<Group<int, T>>, g: int, k: int)
    requires 0 <= g < |gs|
    requires forall h, h' :: 0 <= h < h' < |gs| ==> gs[h].key < gs[h'].key
    requires gs[|gs| - 1].key <= k
    requires g < |gs| - 1 || gs[g].key != k
    ensures gs[g].key != k
  {
  }

  lemma NewKey<T>(init: seq<T>, x: T, key: T -> int)
    requires SortedBy(init + [x], key)
    requires init != [] ==> key(init[|init| - 1]) != key(x)
    ensures Filter(init, key, key(x)) == []
  {
    var s := init + [x];
    forall i | 0 <= i < |init| ensures key(init[i]) != key(x) {
      assert key(s[i]) <= key(s[|init| - 1]) <= key(s[|init|]);
    }
    FilterNone(init, key, key(x));
  }

  /** Two keys that tell the same elements apart make the same groups. */
  lemma {:induction false} GroupByAgree<T, K, L>(s: seq<T>, k1: T -> K, k2: T -> L)
    requires forall i, j :: 0 <= i < |s| && 0 <= j < |s| ==> (k1(s[i]) == k1(s[j]) <==> k2(s[i]) == k2(s[j]))
    ensures |GroupBy(s, k1)| == |GroupBy(s, k2)|
    ensures forall g :: 0 <= g < |GroupBy(s, k1)| ==> GroupBy(s, k1)[g].members == GroupBy(s, k2)[g].members
    decreases |s|
  {
    if |s| > 0 {
      var init := s[..|s| - 1];
      assert forall i :: 0 <= i < |init| ==> init[i] == s[i];
      GroupByAgree(init, k1, k2);
      AgreeStep(s, k1, k2);
    }
  }

  /** The induction step of `GroupByAgree`: agreement on all but the last
      element extends to the whole sequence. */
  lemma AgreeStep<T, K, L>(s: seq<T>, k1: T -> K, k2: T -> L)
    requires |s| > 0
    requires forall i, j :: 0 <= i < |s| && 0 <= j < |s| ==> (k1(s[i]) == k1(s[j]) <==> k2(s[i]) == k2(s[j]))
    requires var r1, r2 := GroupBy(s[..|s| - 1], k1), GroupBy(s[..|s| - 1], k2);
      |r1| == |r2| && forall g :: 0 <= g < |r1| ==> r1[g].members == r2[g].members
    ensures |GroupBy(s, k1)| == |GroupBy(s, k2)|
    ensures forall g :: 0 <= g < |GroupBy(s, k1)| ==> GroupBy(s, k1)[g].members == GroupBy(s, k2)[g].members
  {
    var r1, r2, x := GroupBy(s[..|s| - 1], k1), GroupBy(s[..|s| - 1], k2), s[|s| - 1];
    var joined := |r1| > 0 && r1[|r1| - 1].key == k1(x);
    JoinsAgree(s, k1, k2);
    GroupByUnfold(s, k1);
    GroupByUnfold(s, k2);
    AgreeGrow(r1, r2, GroupBy(s, k1), GroupBy(s, k2), x, k1(x), k2(x), joined);
  }

  /** Under two keys that tell the same elements apart, the last element
      joins the last group under one key exactly when it does under the
      other. */
  lemma JoinsAgree<T, K, L>(s: seq<T>, k1: T -> K, k2: T -> L)
    requires |s| > 0
    requires forall i, j :: 0 <= i < |s| && 0 <= j < |s| ==> (k1(s[i]) == k1(s[j]) <==> k2(s[i]) == k2(s[j]))
    ensures var r1, r2, x := GroupBy(s[..|s| - 1], k1), GroupBy(s[..|s| - 1], k2), s[|s| - 1];
      (|r1| > 0 && r1[|r1| - 1].key == k1(x)) <==> (|r2| > 0 && r2[|r2| - 1].key == k2(x))
  {
    var init := s[..|s| - 1];
    if |init| > 0 {
      assert init[|init| - 1] == s[|s| - 2];
    }
  }

  /** Two group lists with the same members stay so when one element joins
      the last group of both, or opens a group in both. */
  lemma AgreeGrow<K, L, T>(r1: seq<Group<K, T>>, r2: seq<Group<L, T>>, g1: seq<Group<K, T>>, g2: seq<Group<L, T>>,
                           x: T, a: K, b: L, joined: bool)
    requires |r1| == |r2| && forall g :: 0 <= g < |r1| ==> r1[g].members == r2[g].members
    requires joined ==> (|r1| > 0 &&
      g1 == r1[..|r1| - 1] + [Group(a, r1[|r1| - 1].members + [x])] &&
      g2 == r2[..|r2| - 1] + [Group(b, r2[|r2| - 1].members + [x])])
    requires !joined ==> g1 == r1 + [Group(a, [x])] && g2 == r2 + [Group(b, [x])]
    ensures |g1| == |g2| && forall g :: 0 <= g < |g1| ==> g1[g].members == g2[g].members
  {
    forall g | 0 <= g < |g1| ensures g1[g].members == g2[g].members {
      if g < |g1| - 1 {
        assert g1[g] == r1[g] && g2[g] == r2[g];
      }
    }
  }

  // ---------------------------------------------------------------------
  // min / max of numbers

  /** `min(xs)` */
  function MinOf(xs: seq<real>): (m: real)
    requires |xs| > 0
    ensures exists i :: 0 <= i < |xs| && xs[i] == m
    ensures forall i :: 0 <= i < |xs| ==> m <= xs[i]
  {
    if |xs| == 1 then xs[0]
    else
      var rest := MinOf(xs[1..]);
      assert forall i :: 1 <= i < |xs| ==> xs[i] == xs[1..][i - 1];
      if xs[0] <= rest then xs[0] else rest
  }

  /** `max(xs)` */
  function MaxOf(xs: seq<real>): (m: real)
    requires |xs| > 0
    ensures exists i :: 0 <= i < |xs| && xs[i] == m
    ensures forall i :: 0 <= i < |xs| ==> xs[i] <= m
  {
    if |xs| == 1 then xs[0]
    else
      var rest := MaxOf(xs[1..]);
      assert forall i :: 1 <= i < |xs| ==> xs[i] == xs[1..][i - 1];
      if xs[0] >= rest then xs[0] else rest
  }
}
