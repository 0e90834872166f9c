/** The final reporting step `sorted(sols, key=sum)`: solutions in
    ascending order of the sum of their denominators. */
module Report {

  /** The sum of the denominators of one solution. */
  function Sum(s: seq<int>): int {
    if s == [] then 0 else s[0] + Sum(s[1..])
  }

  /** Sum adds up from the back as well. */
  lemma {:induction false} SumSnoc(s: seq<int>, x: int)
    ensures Sum(s + [x]) == Sum(s) + x
  {
    if s != [] {
      assert (s + [x])[1..] == s[1..] + [x];
      SumSnoc(s[1..], x);
    }
  }

  predicate SumSorted(l: seq<seq<int>>) {
    forall i, j :: 0 <= i < j < |l| ==> Sum(l[i]) <= Sum(l[j])
  }

  /** Every solution of l has a sum of at least b. */
  predicate AllAtLeast(b: int, l: seq<seq<int>>) {
    forall i :: 0 <= i < |l| ==> b <= Sum(l[i])
  }

  /** Insert x in front of the first element whose sum is not smaller, so
      that x stays ahead of the equal-sum elements that followed it. */
  function Insert(x: seq<int>, l: seq<seq<int>>): (r: seq<seq<int>>)
    ensures multiset(r) == multiset(l) + multiset{x}
  {
    if l == [] || Sum(x) <= Sum(l[0]) then
      [x] + l
    else
      assert l == [l[0]] + l[1..];
      [l[0]] + Insert(x, l[1..])
  }

  /** Inserting into a sorted list keeps it sorted, and keeps every lower
      bound that x also meets. */
  lemma {:induction false} InsertSorted(x: seq<int>, l: seq<seq<int>>)
    requires SumSorted(l)
    ensures SumSorted(Insert(x, l))
    ensures forall b :: AllAtLeast(b, l) && b <= Sum(x) ==> AllAtLeast(b, Insert(x, l))
  {
    if l != [] && Sum(x) > Sum(l[0]) {
      InsertSorted(x, l[1..]);
      assert AllAtLeast(Sum(l[0]), l[1..]);
      var r := Insert(x, l);
      assert r == [l[0]] + Insert(x, l[1..]);
      forall b | AllAtLeast(b, l) && b <= Sum(x)
        ensures AllAtLeast(b, r)
      {
        assert AllAtLeast(b, l[1..]);
      }
    }
  }

  /** A stable insertion sort by `Sum`. */
  function SortBySum(l: seq<seq<int>>): (r: seq<seq<int>>)
    ensures multiset(r) == multiset(l)
  {
    if l == [] then []
    else
      assert l == [l[0]] + l[1..];
      Insert(l[0], SortBySum(l[1..]))
  }

  /** The result of the sort is in ascending order of sum. */
  lemma {:induction false} SortBySumSorted(l: seq<seq<int>>)
    ensures SumSorted(SortBySum(l))
  {
    if l != [] {
      SortBySumSorted(l[1..]);
      InsertSorted(l[0], SortBySum(l[1..]));
    }
  }
}
