/** Largest-first selection over any items that have a value. */
module Selection {

  function Sum<T>(v: T -> int, xs: seq<T>): int {
    if xs == [] then 0 else v(xs[0]) + Sum(v, xs[1..])
  }

  predicate Descending<T>(v: T -> int, xs: seq<T>) {
    forall i, j :: 0 <= i < j < |xs| ==> v(xs[i]) >= v(xs[j])
  }

  ghost predicate NonNegative<T>(v: T -> int, xs: seq<T>) {
    forall x :: x in xs ==> v(x) >= 0
  }

  /** Insertion before the first smaller item, so that equal items keep their order. */
  function Insert<T>(v: T -> int, x: T, xs: seq<T>): (r: seq<T>)
    ensures multiset(r) == multiset([x]) + multiset(xs)
  {
    if xs == [] || v(xs[0]) <= v(x) then [x] + xs
    else
      assert xs == [xs[0]] + xs[1..];
      [xs[0]] + Insert(v, x, xs[1..])
  }

  /** The stable descending sort. */
  function SortDesc<T>(v: T -> int, xs: seq<T>): (r: seq<T>)
    ensures multiset(r) == multiset(xs)
  {
    if xs == [] then []
    else
      assert xs == [xs[0]] + xs[1..];
      Insert(v, xs[0], SortDesc(v, xs[1..]))
  }

  lemma SameItems<T>(a: seq<T>, b: seq<T>)
    requires multiset(a) == multiset(b)
    ensures |a| == |b| && forall x :: x in a <==> x in b
  {
    assert |multiset(a)| == |a| && |multiset(b)| == |b|;
    forall x ensures x in a <==> x in b {
      assert x in multiset(a) <==> x in multiset(b);
    }
  }

  lemma {:induction false} InsertDescends<T>(v: T -> int, x: T, xs: seq<T>)
    requires Descending(v, xs)
    ensures Descending(v, Insert(v, x, xs))
  {
    if xs == [] || v(xs[0]) <= v(x) {
    } else {
      var r := Insert(v, x, xs[1..]);
      InsertDescends(v, x, xs[1..]);
      forall j | 0 <= j < |r| ensures v(xs[0]) >= v(r[j]) {
        assert r[j] in multiset(r);
        assert r[j] in multiset([x]) + multiset(xs[1..]);
        if r[j] != x {
          assert r[j] in xs[1..];
        }
      }
    }
  }

  lemma {:induction false} SortDescends<T>(v: T -> int, xs: seq<T>)
    ensures Descending(v, SortDesc(v, xs))
  {
    if xs == [] {
    } else {
      SortDescends(v, xs[1..]);
      InsertDescends(v, xs[0], SortDesc(v, xs[1..]));
    }
  }

  function OneOf<T>(v: T -> int, w: int, x: T): seq<T> {
    if v(x) == w then [x] else []
  }

  /** The items of one value, in their order. */
  function OfValue<T>(v: T -> int, w: int, xs: seq<T>): seq<T> {
    if xs == [] then [] else OneOf(v, w, xs[0]) + OfValue(v, w, xs[1..])
  }

  lemma OfValueHead<T>(v: T -> int, w: int, x: T, xs: seq<T>)
    ensures OfValue(v, w, [x] + xs) == OneOf(v, w, x) + OfValue(v, w, xs)
  {
    assert ([x] + xs)[1..] == xs;
  }

  lemma {:induction false} InsertStable<T>(v: T -> int, w: int, x: T, xs: seq<T>)
    ensures OfValue(v, w, Insert(v, x, xs)) == OneOf(v, w, x) + OfValue(v, w, xs)
  {
    hide OfValue;
    if xs == [] || v(xs[0]) <= v(x) {
      OfValueHead(v, w, x, xs);
    } else {
      OfValueHead(v, w, xs[0], Insert(v, x, xs[1..]));
      OfValueHead(v, w, xs[0], xs[1..]);
      InsertStable(v, w, x, xs[1..]);
      assert xs == [xs[0]] + xs[1..];
    }
  }

  /** Items of equal value keep their order, whichever value. */
  lemma {:induction false} SortStable<T>(v: T -> int, w: int, xs: seq<T>)
    ensures OfValue(v, w, SortDesc(v, xs)) == OfValue(v, w, xs)
  {
    if xs == [] {
    } else {
      SortStable(v, w, xs[1..]);
      InsertStable(v, w, xs[0], SortDesc(v, xs[1..]));
    }
  }

  lemma {:induction false} InsertSum<T>(v: T -> int, x: T, xs: seq<T>)
    ensures Sum(v, Insert(v, x, xs)) == v(x) + Sum(v, xs)
  {
    if xs == [] || v(xs[0]) <= v(x) {
    } else {
      InsertSum(v, x, xs[1..]);
    }
  }

  lemma {:induction false} SortSum<T>(v: T -> int, xs: seq<T>)
    ensures Sum(v, SortDesc(v, xs)) == Sum(v, xs)
  {
    if xs == [] {
    } else {
      SortSum(v, xs[1..]);
      InsertSum(v, xs[0], SortDesc(v, xs[1..]));
    }
  }

  lemma {:induction false} SumConcat<T>(v: T -> int, a: seq<T>, b: seq<T>)
    ensures Sum(v, a + b) == Sum(v, a) + Sum(v, b)
  {
    if a == [] {
      assert a + b == b;
    } else {
      assert (a + b)[1..] == a[1..] + b;
      SumConcat(v, a[1..], b);
    }
  }

  lemma SumSnoc<T>(v: T -> int, xs: seq<T>, i: nat)
    requires i < |xs|
    ensures Sum(v, xs[..i + 1]) == Sum(v, xs[..i]) + v(xs[i])
  {
    assert xs[..i + 1] == xs[..i] + [xs[i]];
    SumConcat(v, xs[..i], [xs[i]]);
    assert Sum(v, [xs[i]]) == v(xs[i]) + Sum(v, [xs[i]][1..]);
  }

  lemma {:induction false} SumNonNegative<T>(v: T -> int, xs: seq<T>)
    requires NonNegative(v, xs)
    ensures Sum(v, xs) >= 0
  {
    if xs == [] {
    } else {
      SumNonNegative(v, xs[1..]);
    }
  }

  lemma {:induction false} MemberAtMostSum<T>(v: T -> int, xs: seq<T>, x: T)
    requires NonNegative(v, xs) && x in xs
    ensures v(x) <= Sum(v, xs)
  {
    if x == xs[0] {
      SumNonNegative(v, xs[1..]);
    } else {
      MemberAtMostSum(v, xs[1..], x);
    }
  }

  lemma PrefixSums<T>(v: T -> int, xs: seq<T>, i: nat, j: nat)
    requires i <= j <= |xs| && NonNegative(v, xs)
    ensures Sum(v, xs[..i]) <= Sum(v, xs[..j])
  {
    assert xs[..j] == xs[..i] + xs[i..j];
    SumConcat(v, xs[..i], xs[i..j]);
    SumNonNegative(v, xs[i..j]);
  }

  // ---------------------------------------------------------------- greedy selection

  /** How many items are taken before the running total covers the need; all of them if it never does. */
  function Taken<T>(v: T -> int, xs: seq<T>, need: int): (k: nat)
    ensures k <= |xs|
  {
    if xs == [] then 0 else if v(xs[0]) >= need then 1 else 1 + Taken(v, xs[1..], need - v(xs[0]))
  }

  /** The taken prefix covers the need if any prefix does, and no shorter nonempty prefix covers it. */
  lemma {:induction false} TakenFirst<T>(v: T -> int, xs: seq<T>, need: int)
    ensures var k := Taken(v, xs, need);
            && (k == |xs| || Sum(v, xs[..k]) >= need)
            && (forall j :: 0 < j < k ==> Sum(v, xs[..j]) < need)
            && (k == 0 <==> xs == [])
  {
    if xs == [] {
    } else {
      var rest := need - v(xs[0]);
      TakenFirst(v, xs[1..], rest);
      forall j | 0 < j <= |xs| ensures Sum(v, xs[..j]) == v(xs[0]) + Sum(v, xs[1..][..j - 1]) {
        assert xs[..j][1..] == xs[1..][..j - 1];
      }
    }
  }

  function Largest<T>(v: T -> int, xs: seq<T>, need: int): seq<T> {
    var s := SortDesc(v, xs);
    s[..Taken(v, s, need)]
  }

  /** The loop of the selections: take the items in order until the running total covers the need. */
  method TakeUntil<T>(v: T -> int, xs: seq<T>, need: int) returns (selected: seq<T>, total: int)
    ensures selected == xs[..Taken(v, xs, need)] && total == Sum(v, selected)
  {
    selected, total := [], 0;
    var i := 0;
    TakenFirst(v, xs, need);
    while i < |xs|
      invariant 0 <= i <= |xs| && selected == xs[..i] && total == Sum(v, selected)
      invariant i <= Taken(v, xs, need) && (0 < i ==> total < need)
      decreases |xs| - i
    {
      SumSnoc(v, xs, i);
      assert xs[..i] + [xs[i]] == xs[..i + 1];
      selected := selected + [xs[i]];
      total := total + v(xs[i]);
      i := i + 1;
      if total >= need {
        return;
      }
    }
    assert xs[..|xs|] == xs;
  }

  lemma {:induction false} SumRemove<T>(v: T -> int, t: seq<T>, k: nat)
    requires k < |t|
    ensures Sum(v, t) == v(t[k]) + Sum(v, t[..k] + t[k + 1..])
    ensures multiset(t[..k] + t[k + 1..]) == multiset(t) - multiset([t[k]])
  {
    assert t == t[..k] + ([t[k]] + t[k + 1..]);
    SumConcat(v, t[..k], [t[k]] + t[k + 1..]);
    SumConcat(v, [t[k]], t[k + 1..]);
    SumConcat(v, t[..k], t[k + 1..]);
    assert Sum(v, [t[k]]) == v(t[k]) + Sum(v, [t[k]][1..]);
  }

  lemma HeadIsLargest<T>(v: T -> int, s: seq<T>, x: T)
    requires Descending(v, s) && x in s
    ensures s != [] && v(x) <= v(s[0]) && Descending(v, s[1..])
  {
  }

  /** The head of s if t holds it, any item of t otherwise. */
  lemma Pick<T>(t: seq<T>, x: T) returns (k: nat)
    requires t != []
    ensures k < |t| && (t[k] == x || x !in t)
  {
    k := if x in t then var j :| 0 <= j < |t| && t[j] == x; j else 0;
  }

  lemma SumFirst<T>(v: T -> int, s: seq<T>, n: nat)
    requires 0 < n <= |s|
    ensures Sum(v, s[..n]) == v(s[0]) + Sum(v, s[1..][..n - 1])
  {
    assert s[..n][1..] == s[1..][..n - 1];
  }

  lemma MemberOfSubset<T>(t: seq<T>, s: seq<T>, k: nat)
    requires multiset(t) <= multiset(s) && k < |t|
    ensures s != [] && t[k] in s
  {
    assert t[k] in multiset(t);
  }

  lemma BagWithout<T>(t: multiset<T>, s: multiset<T>, u: multiset<T>, r: multiset<T>, x: T, y: T)
    requires t <= s && t == u + multiset{x} && s == r + multiset{y} && (x == y || y !in t)
    ensures u <= r
  {
    forall z ensures u[z] <= r[z] {
      assert t[z] <= s[z];
    }
  }

  lemma SubsetWithout<T>(t: seq<T>, s: seq<T>, k: nat)
    requires s != [] && multiset(t) <= multiset(s) && k < |t| && (t[k] == s[0] || s[0] !in t)
    ensures multiset(t[..k] + t[k + 1..]) <= multiset(s[1..])
  {
    assert t == t[..k] + ([t[k]] + t[k + 1..]);
    assert s == [s[0]] + s[1..];
    BagWithout(multiset(t), multiset(s), multiset(t[..k] + t[k + 1..]), multiset(s[1..]), t[k], s[0]);
  }

  /** No sub-collection outweighs the equally long prefix of the descending order. */
  lemma {:induction false} PrefixIsHeaviest<T>(v: T -> int, s: seq<T>, t: seq<T>)
    requires Descending(v, s) && multiset(t) <= multiset(s)
    ensures |t| <= |s| && Sum(v, t) <= Sum(v, s[..|t|])
    decreases |t|
  {
    if t != [] {
      hide Descending, Sum;
      var k := Pick(t, if s == [] then t[0] else s[0]);
      var u := t[..k] + t[k + 1..];
      MemberOfSubset(t, s, k);
      SubsetWithout(t, s, k);
      HeadIsLargest(v, s, t[k]);
      SumRemove(v, t, k);
      PrefixIsHeaviest(v, s[1..], u);
      SumFirst(v, s, |t|);
    } else {
      assert s[..0] == [];
    }
  }

  /** Largest-first selection: with non-negative values it covers the need exactly when everything
      together does. */
  lemma LargestCovers<T>(v: T -> int, xs: seq<T>, need: int)
    requires NonNegative(v, xs)
    ensures Sum(v, Largest(v, xs, need)) >= need <==> Sum(v, xs) >= need
  {
    var s := SortDesc(v, xs);
    var k := Taken(v, s, need);
    SortSum(v, xs);
    SameItems(s, xs);
    TakenFirst(v, s, need);
    PrefixSums(v, s, k, |s|);
    assert s[..|s|] == s;
  }

  /** And then, for a positive need, no sub-collection with fewer items covers it. */
  lemma LargestIsFewest<T>(v: T -> int, xs: seq<T>, need: int, t: seq<T>)
    requires NonNegative(v, xs) && need > 0
    requires multiset(t) <= multiset(xs) && |t| < |Largest(v, xs, need)|
    ensures Sum(v, t) < need
  {
    var s := SortDesc(v, xs);
    var k := Taken(v, s, need);
    SortDescends(v, xs);
    SameItems(s, xs);
    TakenFirst(v, s, need);
    PrefixIsHeaviest(v, s, t);
    PrefixSums(v, s, |t|, k - 1);
    if k == 1 {
      assert s[..0] == [];
    }
  }

  /** Fewness needs a positive need: otherwise one item is taken where none would do. */
  lemma FewestExactly<T(!new)>(v: T -> int, xs: seq<T>, need: int)
    requires NonNegative(v, xs)
    ensures (forall t :: multiset(t) <= multiset(xs) && |t| < |Largest(v, xs, need)| ==> Sum(v, t) < need)
       <==> need > 0 || xs == []
  {
    if need > 0 {
      forall t | multiset(t) <= multiset(xs) && |t| < |Largest(v, xs, need)| ensures Sum(v, t) < need {
        LargestIsFewest(v, xs, need, t);
      }
    } else {
      var s := SortDesc(v, xs);
      SameItems(s, xs);
      TakenFirst(v, s, need);
      var none: seq<T> := [];
      assert multiset(none) <= multiset(xs) && Sum(v, none) == 0;
    }
  }

  /** The selected items come from the offered ones, each at most as often. */
  lemma LargestSelects<T>(v: T -> int, xs: seq<T>, need: int)
    ensures multiset(Largest(v, xs, need)) <= multiset(xs)
  {
    var s := SortDesc(v, xs);
    var k := Taken(v, s, need);
    assert s == s[..k] + s[k..];
  }

  lemma SameMember<T>(a: seq<T>, b: seq<T>, x: T)
    requires multiset(a) == multiset(b) && x in a
    ensures x in b
  {
    assert x in multiset(a);
  }

  lemma LargestFrom<T>(v: T -> int, xs: seq<T>, need: int)
    ensures forall x :: x in Largest(v, xs, need) ==> x in xs
  {
    var s, taken := SortDesc(v, xs), Largest(v, xs, need);
    forall x | x in taken ensures x in xs {
      SameMember(s, xs, x);
    }
  }

  lemma {:induction false} SumPositive<T>(v: T -> int, xs: seq<T>)
    requires xs != [] && forall x :: x in xs ==> v(x) > 0
    ensures Sum(v, xs) > 0
  {
    if |xs| == 1 {
      assert xs[1..] == [];
    } else {
      SumPositive(v, xs[1..]);
    }
  }

  /** A selection that covers its need takes only items of positive value, or else the first one alone. */
  lemma LargestTakes<T>(v: T -> int, xs: seq<T>, need: int, x: T)
    requires Sum(v, Largest(v, xs, need)) >= need && x in Largest(v, xs, need)
    ensures v(x) > 0 || x == SortDesc(v, xs)[0]
  {
    var s := SortDesc(v, xs);
    var k := Taken(v, s, need);
    SortDescends(v, xs);
    TakenFirst(v, s, need);
    SumSnoc(v, s, k - 1);
    assert k > 1 ==> v(s[k - 1]) > 0;
    hide Sum, Taken;
    var i :| 0 <= i < k && s[i] == x;
  }

  /** The first item of the order is all that some covered need takes. */
  lemma LargestTakesFirst<T>(v: T -> int, xs: seq<T>) returns (need: int)
    requires xs != []
    ensures SortDesc(v, xs) != [] && Largest(v, xs, need) == [SortDesc(v, xs)[0]]
    ensures Sum(v, Largest(v, xs, need)) == need
  {
    var s := SortDesc(v, xs);
    SameItems(s, xs);
    need := v(s[0]);
    assert s[..1] == [s[0]] && s[..1][1..] == [];
  }

  lemma PrefixGrows<T>(v: T -> int, s: seq<T>, i: nat, j: nat)
    requires Descending(v, s) && j <= i < |s| && v(s[i]) > 0
    ensures Sum(v, s[..j]) < Sum(v, s[..i + 1])
  {
    assert s[..i + 1] == s[..j] + s[j..i + 1];
    SumConcat(v, s[..j], s[j..i + 1]);
    SumPositive(v, s[j..i + 1]);
  }

  /** Every item of positive value is taken for some covered need, whatever the other values are. */
  lemma LargestTakesPositive<T>(v: T -> int, xs: seq<T>, x: T) returns (need: int)
    requires x in xs && v(x) > 0
    ensures x in Largest(v, xs, need) && Sum(v, Largest(v, xs, need)) == need
  {
    hide Sum, SortDesc, Taken, Descending;
    var s := SortDesc(v, xs);
    SortDescends(v, xs);
    SameItems(s, xs);
    var i :| 0 <= i < |s| && s[i] == x;
    need := Sum(v, s[..i + 1]);
    var k := Taken(v, s, need);
    TakenFirst(v, s, need);
    if k <= i {
      PrefixGrows(v, s, i, k);
      assert false;
    }
    assert k == i + 1;
    assert s[..k][i] == x;
  }
}
