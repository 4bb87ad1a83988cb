/** The traversal order of an ordered map: its keys, ascending. */
module KeyOrder {

  lemma HasElement(s: set<int>)
    ensures s == {} || exists w :: w in s
  {
    if forall w :: w !in s {
      assert s == {};
    }
  }

  lemma {:induction false} LeastExists(s: set<int>, w: int)
    requires w in s
    ensures exists k :: k in s && forall x | x in s :: k <= x
    decreases s
  {
    if x :| x in s && x < w {
      LeastExists(s - {w}, x);
      var r :| r in s - {w} && forall y | y in s - {w} :: r <= y;
      forall y | y in s ensures r <= y {
        assert y != w ==> y in s - {w};
        assert x in s - {w};
      }
    }
  }

  function Least(s: set<int>): (k: int)
    requires s != {}
    ensures k in s && forall x | x in s :: k <= x
  {
    assert exists k :: k in s && forall x | x in s :: k <= x by {
      HasElement(s);
      var w :| w in s;
      LeastExists(s, w);
    }
    var k :| k in s && forall x | x in s :: k <= x;
    k
  }

  /** The elements of a set in ascending order. */
  function Ascending(s: set<int>): (r: seq<int>)
    ensures |r| == |s| && forall i | 0 <= i < |r| :: r[i] in s
    decreases s
  {
    if s == {} then [] else [Least(s)] + Ascending(s - {Least(s)})
  }

  lemma {:induction false} AscendingIsOrder(s: set<int>)
    ensures forall x :: x in Ascending(s) <==> x in s
    ensures forall i, j | 0 <= i < j < |Ascending(s)| :: Ascending(s)[i] < Ascending(s)[j]
    decreases s
  {
    if s != {} {
      AscendingIsOrder(s - {Least(s)});
    }
  }
}
