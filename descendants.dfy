/**
  The activity set that the recursive common table expression of get_by_activity
  collects: the start activity, then every activity whose parent is already
  collected and whose own level is below 3, up to a fixpoint.
*/
module Descendants {
  import opened Common
  import opened Schema

  /** The recursion stops at activities whose level is not below this bound. */
  const LevelBound: int := 3

  /** The recursive member of the query admits activity c given the rows collected so far. */
  predicate Joins(acts: map<int, Activity>, s: set<int>, c: int)
    requires c in acts
  {
    acts[c].parentId.Some? && acts[c].parentId.value in s && acts[c].level < LevelBound
  }

  /** One round of the recursive member: the activities it admits from s. */
  function Step(acts: map<int, Activity>, s: set<int>): (r: set<int>)
    ensures forall c :: c in r <==> c in acts && Joins(acts, s, c)
  {
    set c | c in acts.Keys && Joins(acts, s, c)
  }

  /** No further round adds anything. */
  ghost predicate Closed(acts: map<int, Activity>, s: set<int>)
  {
    forall c :: c in acts && Joins(acts, s, c) ==> c in s
  }

  /** Rounds of the recursive member, repeated until nothing new is admitted. */
  function Saturate(acts: map<int, Activity>, s: set<int>): (r: set<int>)
    requires s <= acts.Keys
    ensures s <= r <= acts.Keys
    ensures Closed(acts, r)
    decreases |acts.Keys - s|
  {
    var next := s + Step(acts, s);
    if next == s then s
    else
      SubsetShrinksDifference(acts.Keys, s, next);
      Saturate(acts, next)
  }

  lemma SubsetShrinksDifference(u: set<int>, s: set<int>, t: set<int>)
    requires s < t <= u
    ensures |u - t| < |u - s|
  {
    var d := t - s;
    assert d != {};
    assert exists y :: y in d by {
      if forall y :: y !in d { }
    }
    var x :| x in d;
    assert u - t <= (u - s) - {x};
    SubsetCardinality(u - t, (u - s) - {x});
  }

  lemma {:induction false} SubsetCardinality(a: set<int>, b: set<int>)
    requires a <= b
    ensures |a| <= |b|
    decreases |b|
  {
    if a != {} {
      assert exists y :: y in a by {
        if forall y :: y !in a { }
      }
      var x :| x in a;
      SubsetCardinality(a - {x}, b - {x});
    }
  }

  /** The ids the query collects for activity_id `start`: nothing when no such activity exists. */
  function DescendantIds(acts: map<int, Activity>, start: int): (r: set<int>)
    ensures r <= acts.Keys
    ensures start in acts <==> start in r
    ensures start !in acts ==> r == {}
  {
    if start in acts then Saturate(acts, {start}) else {}
  }

  /** Saturate yields the least closed superset of its seed. */
  lemma {:induction false} SaturateLeast(acts: map<int, Activity>, s: set<int>, t: set<int>)
    requires s <= acts.Keys && s <= t && Closed(acts, t)
    ensures Saturate(acts, s) <= t
    decreases |acts.Keys - s|
  {
    var next := s + Step(acts, s);
    if next != s {
      SubsetShrinksDifference(acts.Keys, s, next);
      SaturateLeast(acts, next, t);
    }
  }

  /**
    A chain from `start`: it begins at the existing activity `start`, and each later
    element is an activity whose parent is the element before it and whose level is below 3.
  */
  ghost predicate IsChain(acts: map<int, Activity>, start: int, path: seq<int>)
  {
    && |path| >= 1 && path[0] == start && start in acts
    && forall i :: 1 <= i < |path| ==>
         path[i] in acts && acts[path[i]].parentId == Some(path[i - 1]) && acts[path[i]].level < LevelBound
  }

  ghost predicate Reaches(acts: map<int, Activity>, start: int, c: int)
  {
    exists path :: IsChain(acts, start, path) && path[|path| - 1] == c
  }

  lemma ChainExtends(acts: map<int, Activity>, start: int, path: seq<int>, c: int)
    requires IsChain(acts, start, path)
    requires c in acts && acts[c].parentId == Some(path[|path| - 1]) && acts[c].level < LevelBound
    ensures IsChain(acts, start, path + [c])
  {
    var ext := path + [c];
    forall i | 1 <= i < |ext|
      ensures ext[i] in acts && acts[ext[i]].parentId == Some(ext[i - 1]) && acts[ext[i]].level < LevelBound
    {
      if i < |path| {
        assert ext[i] == path[i] && ext[i - 1] == path[i - 1];
      }
    }
  }

  /** Every collected activity is reached from the start by a chain. */
  lemma CollectedAreReached(acts: map<int, Activity>, start: int, c: int)
    requires c in DescendantIds(acts, start)
    ensures Reaches(acts, start, c)
  {
    var reached := set x | x in acts.Keys && Reaches(acts, start, x);
    assert IsChain(acts, start, [start]);
    assert start in reached;
    forall x | x in acts && Joins(acts, reached, x)
      ensures x in reached
    {
      var p := acts[x].parentId.value;
      var path :| IsChain(acts, start, path) && path[|path| - 1] == p;
      ChainExtends(acts, start, path, x);
      assert (path + [x])[|path + [x]| - 1] == x;
    }
    SaturateLeast(acts, {start}, reached);
  }

  /** Every activity a chain reaches from the start is collected. */
  lemma {:induction false} ReachedAreCollected(acts: map<int, Activity>, start: int, path: seq<int>)
    requires IsChain(acts, start, path)
    ensures path[|path| - 1] in DescendantIds(acts, start)
    decreases |path|
  {
    if |path| > 1 {
      var prefix := path[..|path| - 1];
      assert IsChain(acts, start, prefix);
      ReachedAreCollected(acts, start, prefix);
      var c := path[|path| - 1];
      var r := DescendantIds(acts, start);
      assert Joins(acts, r, c);
    }
  }

  /** The collected set is exactly the set of activities reachable by chains from the start. */
  lemma DescendantIdsCharacterized(acts: map<int, Activity>, start: int, c: int)
    ensures c in DescendantIds(acts, start) <==> Reaches(acts, start, c)
  {
    if c in DescendantIds(acts, start) {
      CollectedAreReached(acts, start, c);
    }
    if Reaches(acts, start, c) {
      var path :| IsChain(acts, start, path) && path[|path| - 1] == c;
      ReachedAreCollected(acts, start, path);
    }
  }

  /**
    The start is collected whatever its level; any other collected activity has level
    below 3, and so do all activities on a chain that leads to it.
  */
  lemma CollectedBelowBound(acts: map<int, Activity>, start: int, c: int)
    requires c in DescendantIds(acts, start) && c != start
    ensures acts[c].level < LevelBound
    ensures acts[c].parentId.Some? && acts[c].parentId.value in DescendantIds(acts, start)
  {
    CollectedAreReached(acts, start, c);
    var path :| IsChain(acts, start, path) && path[|path| - 1] == c;
    assert |path| > 1;
    ReachedAreCollected(acts, start, path[..|path| - 1]);
  }

  /**
    The working table of the recursive query as written, round by round: round 0 is the
    start row, and round k + 1 holds the activities whose parent is in round k and whose
    level is below 3. UNION ALL keeps no record of the rows already produced, so the query
    ends only when a round comes out empty.
  */
  function Round(acts: map<int, Activity>, start: int, k: nat): (r: set<int>)
    ensures r <= acts.Keys
    ensures k == 0 ==> (r == {} <==> start !in acts)
    decreases k
  {
    if k == 0 then (if start in acts then {start} else {})
    else Step(acts, Round(acts, start, k - 1))
  }

  /** Every row of every round is an activity the fixpoint collects. */
  lemma {:induction false} RoundsAreCollected(acts: map<int, Activity>, start: int, k: nat)
    ensures Round(acts, start, k) <= DescendantIds(acts, start)
    decreases k
  {
    if k > 0 {
      RoundsAreCollected(acts, start, k - 1);
      var prev := Round(acts, start, k - 1);
      var d := DescendantIds(acts, start);
      forall c | c in Round(acts, start, k)
        ensures c in d
      {
        assert Joins(acts, prev, c);
        assert Joins(acts, d, c);
      }
    }
  }

  /** The last activity of a chain of n + 1 activities appears in round n. */
  lemma {:induction false} ChainsAppearInRounds(acts: map<int, Activity>, start: int, path: seq<int>)
    requires IsChain(acts, start, path)
    ensures path[|path| - 1] in Round(acts, start, |path| - 1)
    decreases |path|
  {
    if |path| > 1 {
      var prefix := path[..|path| - 1];
      assert IsChain(acts, start, prefix);
      ChainsAppearInRounds(acts, start, prefix);
      var c := path[|path| - 1];
      assert Joins(acts, Round(acts, start, |path| - 2), c);
    }
  }

  /**
    A parent cycle below the level bound keeps the query as written running: an activity
    that is its own parent and has level below 3 is in every round, so no round is empty.
  */
  lemma {:induction false} SelfParentNeverStops(acts: map<int, Activity>, a: int, k: nat)
    requires a in acts && acts[a].parentId == Some(a) && acts[a].level < LevelBound
    ensures a in Round(acts, a, k)
    decreases k
  {
    if k > 0 {
      SelfParentNeverStops(acts, a, k - 1);
      assert Joins(acts, Round(acts, a, k - 1), a);
    }
  }

  /**
    Whenever the query as written does end, it has produced exactly the ids of the
    fixpoint: an id is collected exactly when some round holds it.
  */
  lemma RoundsCoverDescendants(acts: map<int, Activity>, start: int, c: int)
    ensures c in DescendantIds(acts, start) <==> exists k: nat :: c in Round(acts, start, k)
  {
    if c in DescendantIds(acts, start) {
      CollectedAreReached(acts, start, c);
      var path :| IsChain(acts, start, path) && path[|path| - 1] == c;
      ChainsAppearInRounds(acts, start, path);
    }
    if exists k: nat :: c in Round(acts, start, k) {
      var k: nat :| c in Round(acts, start, k);
      RoundsAreCollected(acts, start, k);
    }
  }

  /** A chain from `start` followed by a chain from its last activity is a chain from `start`. */
  lemma ChainJoin(acts: map<int, Activity>, start: int, p: seq<int>, q: seq<int>)
    requires IsChain(acts, start, p) && IsChain(acts, p[|p| - 1], q)
    ensures IsChain(acts, start, p + q[1..])
    ensures (p + q[1..])[|p + q[1..]| - 1] == q[|q| - 1]
  {
    var r := p + q[1..];
    forall i | 1 <= i < |r|
      ensures r[i] in acts && acts[r[i]].parentId == Some(r[i - 1]) && acts[r[i]].level < LevelBound
    {
      if i < |p| {
        assert r[i] == p[i] && r[i - 1] == p[i - 1];
      } else {
        var j := i - |p| + 1;
        assert r[i] == q[j];
        assert r[i - 1] == q[j - 1];
      }
    }
  }

  /** Going round a cycle n more times gives a chain at least n activities longer, ending where it began. */
  lemma {:induction false} Pump(acts: map<int, Activity>, start: int, path: seq<int>, cycle: seq<int>, n: nat)
      returns (p: seq<int>)
    requires IsChain(acts, start, path) && IsChain(acts, path[|path| - 1], cycle)
    requires |cycle| >= 2 && cycle[|cycle| - 1] == path[|path| - 1]
    ensures IsChain(acts, start, p) && p[|p| - 1] == path[|path| - 1] && |p| >= |path| + n
    decreases n
  {
    if n == 0 {
      p := path;
    } else {
      var shorter := Pump(acts, start, path, cycle, n - 1);
      ChainJoin(acts, start, shorter, cycle);
      p := shorter + cycle[1..];
    }
  }

  /**
    A parent cycle below the level bound that the start reaches keeps the query as written
    running: every round is non-empty, so UNION ALL never reaches the empty round it stops at.
  */
  lemma ReachableCycleNeverStops(acts: map<int, Activity>, start: int, path: seq<int>, cycle: seq<int>, k: nat)
    requires IsChain(acts, start, path) && IsChain(acts, path[|path| - 1], cycle)
    requires |cycle| >= 2 && cycle[|cycle| - 1] == path[|path| - 1]
    ensures Round(acts, start, k) != {}
  {
    var p := Pump(acts, start, path, cycle, k);
    var q := p[..k + 1];
    assert IsChain(acts, start, q);
    ChainsAppearInRounds(acts, start, q);
  }
}
