/** Counting anomaly keys over the groups of a round. */
module GroupCounts {
  import opened Anomalies
  import opened GroupingRules

  predicate Within(round: seq<Anomaly>, group: seq<nat>) {
    forall k :: 0 <= k < |group| ==> group[k] < |round|
  }

  function Members(round: seq<Anomaly>, group: seq<nat>): seq<Anomaly>
    requires Within(round, group)
  {
    seq(|group|, k requires 0 <= k < |group| => round[group[k]])
  }

  /** Keys of the anomalies below n at the given positions, with repetition. */
  function KeysAt(round: seq<Anomaly>, n: nat, at: set<nat>): multiset<Key>
    requires n <= |round|
  {
    if n == 0 then multiset{}
    else KeysAt(round, n - 1, at) + if n - 1 in at then multiset{AnomalyKey(round[n - 1])} else multiset{}
  }

  lemma {:induction false} KeysAtAgree(round: seq<Anomaly>, n: nat, a: set<nat>, b: set<nat>, k: Key)
    requires n <= |round|
    requires forall j :: 0 <= j < n && AnomalyKey(round[j]) == k ==> (j in a <==> j in b)
    ensures KeysAt(round, n, a)[k] == KeysAt(round, n, b)[k]
  {
    if n > 0 {
      KeysAtAgree(round, n - 1, a, b, k);
    }
  }

  lemma {:induction false} KeysAtAdds(round: seq<Anomaly>, n: nat, a: set<nat>, b: set<nat>)
    requires n <= |round| && a !! b
    ensures KeysAt(round, n, a + b) == KeysAt(round, n, a) + KeysAt(round, n, b)
  {
    if n > 0 {
      KeysAtAdds(round, n - 1, a, b);
    }
  }

  lemma {:induction false} KeysAtOne(round: seq<Anomaly>, n: nat, i: nat)
    requires n <= |round|
    ensures KeysAt(round, n, {i}) == if i < n then multiset{AnomalyKey(round[i])} else multiset{}
  {
    if n > 0 {
      KeysAtOne(round, n - 1, i);
    }
  }

  lemma {:induction false} KeysAtAll(round: seq<Anomaly>, n: nat, at: set<nat>)
    requires n <= |round| && forall j :: 0 <= j < n ==> j in at
    ensures KeysAt(round, n, at) == multiset(Keys(round[..n]))
  {
    if n > 0 {
      KeysAtAll(round, n - 1, at);
      assert Keys(round[..n]) == Keys(round[..n - 1]) + [AnomalyKey(round[n - 1])];
    }
  }

  function Positions(group: seq<nat>): set<nat> {
    set i | i in group
  }

  lemma {:induction false} KeysOfMembers(round: seq<Anomaly>, group: seq<nat>)
    requires Within(round, group) && forall k, l :: 0 <= k < l < |group| ==> group[k] < group[l]
    ensures multiset(Keys(Members(round, group))) == KeysAt(round, |round|, Positions(group))
    decreases |group|
  {
    if group == [] {
      KeysAtNone(round, |round|);
      assert Positions(group) == {};
    } else {
      var n := |group| - 1;
      var before, last := group[..n], group[n];
      KeysOfMembers(round, before);
      assert Keys(Members(round, group)) == Keys(Members(round, before)) + [AnomalyKey(round[last])];
      assert group == before + [last];
      assert Positions(group) == Positions(before) + {last};
      KeysAtAdds(round, |round|, Positions(before), {last});
      KeysAtOne(round, |round|, last);
    }
  }

  lemma {:induction false} KeysAtNone(round: seq<Anomaly>, n: nat)
    requires n <= |round|
    ensures KeysAt(round, n, {}) == multiset{}
  {
    if n > 0 {
      KeysAtNone(round, n - 1);
    }
  }

  // ---- Groups of a grouping ----

  lemma GroupsAreWithin(round: seq<Anomaly>, groups: seq<seq<nat>>)
    requires IsGrouping(round, groups)
    ensures forall g :: 0 <= g < |groups| ==> Within(round, groups[g])
  {
  }

  /** Positions in the first g groups. */
  function Covered(groups: seq<seq<nat>>, g: nat): set<nat>
    requires g <= |groups|
  {
    if g == 0 then {} else Covered(groups, g - 1) + Positions(groups[g - 1])
  }

  lemma {:induction false} CoveredMeans(groups: seq<seq<nat>>, g: nat, i: nat)
    requires g <= |groups|
    ensures i in Covered(groups, g) <==> exists h :: 0 <= h < g && i in groups[h]
  {
    if g > 0 {
      CoveredMeans(groups, g - 1, i);
    }
  }

  lemma NextGroupIsNew(round: seq<Anomaly>, groups: seq<seq<nat>>, g: nat)
    requires IsGrouping(round, groups) && g < |groups|
    ensures Covered(groups, g) !! Positions(groups[g])
  {
    forall i | i in groups[g] ensures i !in Covered(groups, g) {
      CoveredMeans(groups, g, i);
      forall h | 0 <= h < |groups| && i in groups[h] ensures h == g {
        GroupsHaveDisjointKeys(round, groups, g, h, i, i);
      }
    }
  }

  /** One group more adds exactly its members' keys. */
  lemma NextGroupAdds(round: seq<Anomaly>, groups: seq<seq<nat>>, g: nat)
    requires IsGrouping(round, groups) && g < |groups| && Within(round, groups[g])
    ensures KeysAt(round, |round|, Covered(groups, g + 1)) ==
            KeysAt(round, |round|, Covered(groups, g)) + multiset(Keys(Members(round, groups[g])))
  {
    NextGroupIsNew(round, groups, g);
    KeysAtAdds(round, |round|, Covered(groups, g), Positions(groups[g]));
    KeysOfMembers(round, groups[g]);
  }

  /** All groups together hold exactly the round's keys. */
  lemma GroupsHoldAllKeys(round: seq<Anomaly>, groups: seq<seq<nat>>)
    requires IsGrouping(round, groups)
    ensures KeysAt(round, |round|, Covered(groups, |groups|)) == multiset(Keys(round))
  {
    forall j | 0 <= j < |round| ensures j in Covered(groups, |groups|) {
      CoveredMeans(groups, |groups|, j);
      assert InSomeGroup(groups, j);
    }
    KeysAtAll(round, |round|, Covered(groups, |groups|));
    assert round[..|round|] == round;
  }

  /** A member's key occurs in its own group as often as in the round, and in no earlier group. */
  lemma KeyStaysInItsGroup(round: seq<Anomaly>, groups: seq<seq<nat>>, g: nat, i: nat)
    requires IsGrouping(round, groups) && g < |groups| && i in groups[g] && Within(round, groups[g])
    ensures i < |round|
    ensures multiset(Keys(Members(round, groups[g])))[AnomalyKey(round[i])] == multiset(Keys(round))[AnomalyKey(round[i])]
    ensures KeysAt(round, |round|, Covered(groups, g))[AnomalyKey(round[i])] == 0
  {
    var k := AnomalyKey(round[i]);
    var all := Covered(groups, |groups|);
    forall j | 0 <= j < |round| && AnomalyKey(round[j]) == k
      ensures j in Positions(groups[g]) && j !in Covered(groups, g) && j in all
    {
      OnlyInItsGroup(round, groups, g, i, j);
      CoveredMeans(groups, |groups|, j);
    }
    KeysOfMembers(round, groups[g]);
    KeysAtAgree(round, |round|, Positions(groups[g]), all, k);
    GroupsHoldAllKeys(round, groups);
    KeysAtAgree(round, |round|, Covered(groups, g), {}, k);
    KeysAtNone(round, |round|);
  }

  lemma OnlyInItsGroup(round: seq<Anomaly>, groups: seq<seq<nat>>, g: nat, i: nat, j: nat)
    requires IsGrouping(round, groups) && g < |groups| && i in groups[g] && i < |round| && j < |round|
    requires AnomalyKey(round[i]) == AnomalyKey(round[j])
    ensures j in groups[g] && j !in Covered(groups, g)
  {
    assert InSomeGroup(groups, j);
    var h :| 0 <= h < |groups| && j in groups[h];
    GroupsHaveDisjointKeys(round, groups, g, h, i, j);
    NextGroupIsNew(round, groups, g);
  }
}
