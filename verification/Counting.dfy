/** Small facts about the sizes of finite sets. */
module Counting {

  function B(b: bool): nat { if b then 1 else 0 }

  /** Two sets that differ in at most one member. */
  lemma SwapMember<T>(before: set<T>, after: set<T>, t: T)
    requires before - {t} == after - {t}
    ensures |after| == |before| - B(t in before) + B(t in after)
  {
    var others := before - {t};
    assert before == if t in before then others + {t} else others;
    assert after == if t in after then others + {t} else others;
  }

  lemma {:induction false} SubsetSize<T>(small: set<T>, big: set<T>)
    requires small <= big
    ensures |small| <= |big| && (|small| == |big| ==> small == big)
  {
    if x :| x in small {
      SubsetSize(small - {x}, big - {x});
    }
  }

  /** The numbers below n. */
  function Upto(n: nat): (r: set<nat>)
    ensures forall x :: x in r <==> 0 <= x < n
  {
    if n == 0 then {} else Upto(n - 1) + {n - 1}
  }

  lemma {:induction false} UptoSize(n: nat)
    ensures |Upto(n)| == n
  {
    if n > 0 {
      UptoSize(n - 1);
    }
  }
}
