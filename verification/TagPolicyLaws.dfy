/** What the three loops of the tag policy amount to, and the filter stage over all images. */
module TagPolicyLaws {
  import opened Jobs
  import opened TagPolicy

  // ---- Young tags and the rest ---------------------------------------------------------------

  lemma {:induction false} YoungIsPrefix(tags: seq<TagDetails>, threshold: int)
    requires AllDated(tags) && YoungestFirst(tags)
    ensures var y := |Young(tags, threshold)|;
            && y <= |tags| && Young(tags, threshold) == tags[..y]
            && (forall i :: 0 <= i < |tags| ==> (IsYoung(tags[i], threshold) <==> i < y))
  {
    if tags != [] {
      var n := |tags| - 1;
      YoungIsPrefix(tags[..n], threshold);
      assert !IsYoung(tags[n], threshold) || n == 0 || IsYoung(tags[n - 1], threshold) by {
        assert n > 0 ==> !Younger(tags[n], tags[n - 1]);
      }
      assert n > 0 ==> tags[..n][n - 1] == tags[n - 1];
      assert forall i :: 0 <= i < n ==> tags[..n][i] == tags[i];
    }
  }

  lemma {:induction false} UnlistedConcat(a: seq<TagDetails>, b: seq<TagDetails>, listed: set<string>)
    ensures Unlisted(a + b, listed) == Unlisted(a, listed) + Unlisted(b, listed)
  {
    if b == [] {
      assert a + b == a;
    } else {
      var n := |b| - 1;
      UnlistedConcat(a, b[..n], listed);
      assert (a + b)[..|a| + n] == a + b[..n];
    }
  }

  lemma {:induction false} AllListed(tags: seq<TagDetails>, listed: set<string>)
    requires forall i :: 0 <= i < |tags| ==> tags[i].String() in listed
    ensures Unlisted(tags, listed) == []
  {
    if tags != [] {
      AllListed(tags[..|tags| - 1], listed);
    }
  }

  lemma {:induction false} NoneListed(tags: seq<TagDetails>, listed: set<string>)
    requires forall i :: 0 <= i < |tags| ==> tags[i].String() !in listed
    ensures Unlisted(tags, listed) == tags
  {
    if tags != [] {
      NoneListed(tags[..|tags| - 1], listed);
    }
  }

  lemma {:induction false} UnlistedAreUnlisted(tags: seq<TagDetails>, listed: set<string>)
    ensures |Unlisted(tags, listed)| <= |tags|
    ensures forall i :: 0 <= i < |Unlisted(tags, listed)| ==> Unlisted(tags, listed)[i].String() !in listed
  {
    if tags != [] {
      UnlistedAreUnlisted(tags[..|tags| - 1], listed);
    }
  }

  lemma ListedTagIsMissed(tags: seq<TagDetails>, listed: set<string>, k: nat, i: nat)
    requires i < k <= |Unlisted(tags, listed)| <= |tags| && tags[i].String() in listed
    ensures Unlisted(tags, listed)[..k] != tags[..k]
  {
    UnlistedAreUnlisted(tags, listed);
    assert Unlisted(tags, listed)[..k][i].String() !in listed && tags[..k][i] == tags[i];
  }

  lemma UnlistedStart(tags: seq<TagDetails>, listed: set<string>, k: nat)
    requires k <= |tags| && forall i :: 0 <= i < k ==> tags[i].String() !in listed
    ensures tags[..k] <= Unlisted(tags, listed)
  {
    NoneListed(tags[..k], listed);
    UnlistedConcat(tags[..k], tags[k..], listed);
    assert tags[..k] + tags[k..] == tags;
  }

  /** The first unlisted tags are the first tags exactly when no listed one is among these. */
  lemma UnlistedPrefix(tags: seq<TagDetails>, listed: set<string>, k: nat)
    requires k <= |Unlisted(tags, listed)|
    ensures |Unlisted(tags, listed)| <= |tags|
    ensures Unlisted(tags, listed)[..k] == tags[..k] <==> forall i :: 0 <= i < k ==> tags[i].String() !in listed
  {
    UnlistedAreUnlisted(tags, listed);
    if i :| 0 <= i < k && tags[i].String() in listed {
      ListedTagIsMissed(tags, listed, k, i);
    } else {
      UnlistedStart(tags, listed, k);
    }
  }

  /** Only old tags are candidates for the top-up. */
  lemma TopUpTakesOldTags(tags: seq<TagDetails>, threshold: int)
    requires AllDated(tags) && YoungestFirst(tags)
    ensures var young := Young(tags, threshold);
            |young| <= |tags| && Unlisted(tags, Names(young)) == Unlisted(tags[|young|..], Names(young))
  {
    YoungIsPrefix(tags, threshold);
    var young := Young(tags, threshold);
    AllListed(young, Names(young));
    UnlistedConcat(young, tags[|young|..], Names(young));
    assert young + tags[|young|..] == tags;
  }

  // ---- The closed form -----------------------------------------------------------------------

  /** How many of `n` sorted tags, `young` of them young enough, the policy is meant to keep. */
  function KeptCount(n: nat, young: nat, p: Policy): int {
    Min(p.maxNum, Max(young, Min(p.minNum, n)))
  }

  /** The policy keeps the first tags of `kept`, in the terms of `Apply`. */
  lemma ApplyCuts(tags: seq<TagDetails>, p: Policy, now: int)
    requires AllDated(tags) && YoungestFirst(tags) && 0 <= p.minNum && 0 <= p.maxNum
    ensures var young := Young(tags, now - p.maxAge);
            var others := Unlisted(tags, Names(young));
            var missing := Max(0, Min(p.minNum, |tags|) - |young|);
            var count := KeptCount(|tags|, |young|, p);
            if missing > |others| then Apply(tags, Some(p), now) == Panics
            else 0 <= count <= |young| + missing
                 && Apply(tags, Some(p), now) == Kept((young + others[..missing])[..count])
  {
  }

  /**
   * For dated tags sorted youngest first, y of them young, and limits that are not negative: the
   * top-up runs off the list exactly when the tags whose string no young tag has are too few,
   * and the policy keeps the first KeptCount tags exactly when it does not run off and none of
   * the old tags among these shares its string with a young one.
   */
  lemma ClosedFormExactlyWhen(tags: seq<TagDetails>, p: Policy, now: int)
    requires AllDated(tags) && YoungestFirst(tags) && 0 <= p.minNum && 0 <= p.maxNum
    ensures var y := |Young(tags, now - p.maxAge)|;
            var names := Names(Young(tags, now - p.maxAge));
            var free := |Unlisted(tags, names)|;
            var count := KeptCount(|tags|, y, p);
            && y <= |tags| && 0 <= count <= |tags|
            && (Apply(tags, Some(p), now) == Panics <==> y + free < Min(p.minNum, |tags|))
            && (Apply(tags, Some(p), now) == Kept(tags[..count]) <==>
                Min(p.minNum, |tags|) <= y + free
                && forall i :: y <= i < count ==> tags[i].String() !in names)
  {
    var young := Young(tags, now - p.maxAge);
    var names := Names(young);
    var others := Unlisted(tags, names);
    var missing := Max(0, Min(p.minNum, |tags|) - |young|);
    var count := KeptCount(|tags|, |young|, p);
    ApplyCuts(tags, p, now);
    YoungIsPrefix(tags, now - p.maxAge);
    TopUpTakesOldTags(tags, now - p.maxAge);
    if missing <= |others| {
      CutIsPrefix(tags, young, names, missing, count);
    }
  }

  lemma CutIsPrefix(tags: seq<TagDetails>, young: seq<TagDetails>, names: set<string>, missing: nat, count: nat)
    requires young <= tags && missing <= |Unlisted(tags[|young|..], names)| && count <= |young| + missing
    ensures count <= |tags|
    ensures (young + Unlisted(tags[|young|..], names)[..missing])[..count] == tags[..count] <==>
            forall i :: |young| <= i < count ==> tags[i].String() !in names
  {
    var y, aged := |young|, tags[|young|..];
    var others := Unlisted(aged, names);
    UnlistedAreUnlisted(aged, names);
    if count <= y {
      assert (young + others[..missing])[..count] == tags[..count];
    } else {
      var k := count - y;
      UnlistedPrefix(aged, names, k);
      assert (young + others[..missing])[..count] == young + others[..k];
      assert tags[..count] == young + aged[..k];
      assert (young + others[..k])[y..] == others[..k] && (young + aged[..k])[y..] == aged[..k];
      ShiftedRange(tags, names, y, k);
    }
  }

  lemma ShiftedRange(tags: seq<TagDetails>, names: set<string>, y: nat, k: nat)
    requires y + k <= |tags|
    ensures (forall i :: 0 <= i < k ==> tags[y..][i].String() !in names) <==>
            (forall i :: y <= i < y + k ==> tags[i].String() !in names)
  {
    if forall i :: 0 <= i < k ==> tags[y..][i].String() !in names {
      forall i | y <= i < y + k ensures tags[i].String() !in names {
        assert tags[y..][i - y] == tags[i];
      }
    }
  }

  /** Tags of one string have one timestamp, as the registry clients deliver them. */
  ghost predicate UniformAges(tags: seq<TagDetails>) {
    forall i, j :: 0 <= i < |tags| && 0 <= j < |tags| && tags[i].original == tags[j].original ==>
      tags[i].lastModified == tags[j].lastModified
  }

  lemma UniformMeansNoneShadowed(tags: seq<TagDetails>, threshold: int)
    requires AllDated(tags) && YoungestFirst(tags) && UniformAges(tags)
    ensures var young := Young(tags, threshold);
            && |young| <= |tags|
            && (forall i :: |young| <= i < |tags| ==> tags[i].String() !in Names(young))
            && |Unlisted(tags, Names(young))| == |tags| - |young|
  {
    YoungIsPrefix(tags, threshold);
    TopUpTakesOldTags(tags, threshold);
    var young := Young(tags, threshold);
    assert forall k :: 0 <= k < |young| ==> young[k] == tags[k];
    NoneListed(tags[|young|..], Names(young));
  }

  /** The closed form: the sorted prefix of length min(maxNum, max(young, min(minNum, n))). */
  lemma ClosedForm(tags: seq<TagDetails>, p: Policy, now: int)
    requires AllDated(tags) && YoungestFirst(tags) && UniformAges(tags)
    requires 0 <= p.minNum && 0 <= p.maxNum
    ensures var y := |Young(tags, now - p.maxAge)|;
            var count := KeptCount(|tags|, y, p);
            0 <= count <= |tags| && Apply(tags, Some(p), now) == Kept(tags[..count])
  {
    ClosedFormExactlyWhen(tags, p, now);
    UniformMeansNoneShadowed(tags, now - p.maxAge);
  }

  /**
   * The same on the fields of the tags: the policy keeps the first tags of the list, and tag number
   * i is among these exactly when the maximum allows and the minimum or its age asks for it.
   */
  lemma KeepsExactly(tags: seq<TagDetails>, p: Policy, now: int)
    requires forall i :: 0 <= i < |tags| ==> tags[i].lastModified.Some?
    requires forall i, j :: 0 <= i < j < |tags| ==> tags[i].lastModified.value >= tags[j].lastModified.value
    requires forall i, j :: 0 <= i < |tags| && 0 <= j < |tags| && tags[i].original == tags[j].original ==>
               tags[i].lastModified == tags[j].lastModified
    requires 0 <= p.minNum && 0 <= p.maxNum
    ensures var r := Apply(tags, Some(p), now);
            && r.Kept? && r.tags <= tags
            && forall i :: 0 <= i < |tags| ==>
                 (i < |r.tags| <==> i < p.maxNum && (i < p.minNum || now - tags[i].lastModified.value < p.maxAge))
  {
    ClosedForm(tags, p, now);
    YoungIsPrefix(tags, now - p.maxAge);
  }

  /** A round panics exactly without a policy, with a negative limit, or on a tag without a timestamp. */
  lemma PanicsExactlyWhen(tags: seq<TagDetails>, policy: Option<Policy>, now: int)
    requires UniformAges(tags) && (AllDated(tags) ==> YoungestFirst(tags))
    ensures Apply(tags, policy, now) == Panics <==>
            || policy.None? || policy.value.minNum < 0 || policy.value.maxNum < 0
            || exists i :: 0 <= i < |tags| && tags[i].lastModified.None?
  {
    if policy.Some? && 0 <= policy.value.minNum && AllDated(tags) {
      UniformMeansNoneShadowed(tags, now - policy.value.maxAge);
      if 0 <= policy.value.maxNum {
        ClosedForm(tags, policy.value, now);
      }
    }
  }

  /** One string with an old and a young timestamp: the top-up looks for a tag that is not there. */
  lemma RedatedTagPanics(tag: TagDetails, p: Policy, now: int, age: nat)
    requires p.minNum >= 2 && p.maxAge >= 1
    ensures var young, aged := tag.(lastModified := Some(now)), tag.(lastModified := Some(now - p.maxAge - age));
            YoungestFirst([young, aged]) && Apply([young, aged], Some(p), now) == Panics
  {
    var young, aged := tag.(lastModified := Some(now)), tag.(lastModified := Some(now - p.maxAge - age));
    var tags, threshold := [young, aged], now - p.maxAge;
    assert Young(tags[..1], threshold) == [young] by {
      assert tags[..1][..0] == [];
    }
    assert Young(tags, threshold) == [young];
    assert young.String() in Names([young]) by {
      assert [young][0] == young;
    }
    AllListed(tags, Names([young]));
  }

  // ---- Ties ----------------------------------------------------------------------------------

  ghost function Ages(tags: seq<TagDetails>): seq<int>
    requires AllDated(tags)
  {
    seq(|tags|, i requires 0 <= i < |tags| => tags[i].lastModified.value)
  }

  ghost predicate Decreasing(a: seq<int>) {
    forall i, j :: 0 <= i < j < |a| ==> a[i] >= a[j]
  }

  lemma {:induction false} SortedIsUnique(a: seq<int>, b: seq<int>)
    requires Decreasing(a) && Decreasing(b) && multiset(a) == multiset(b)
    ensures a == b
  {
    assert |multiset(a)| == |a| && |multiset(b)| == |b|;
    if a != [] {
      assert a[0] in multiset(b) && b[0] in multiset(a);
      assert a[0] == b[0];
      assert a == [a[0]] + a[1..] && b == [b[0]] + b[1..];
      assert multiset(a[1..]) == multiset(a) - multiset{a[0]};
      assert multiset(b[1..]) == multiset(b) - multiset{b[0]};
      SortedIsUnique(a[1..], b[1..]);
    }
  }

  lemma AgesConcat(a: seq<TagDetails>, b: seq<TagDetails>)
    requires AllDated(a) && AllDated(b)
    ensures AllDated(a + b) && Ages(a + b) == Ages(a) + Ages(b)
  {
  }

  lemma AgesWithout(tags: seq<TagDetails>, k: nat)
    requires AllDated(tags) && k < |tags|
    ensures var rest := tags[..k] + tags[k + 1..];
            && AllDated(rest) && multiset(rest) == multiset(tags) - multiset{tags[k]}
            && multiset(Ages(tags)) == multiset(Ages(rest)) + multiset{tags[k].lastModified.value}
  {
    var a, x, b := tags[..k], [tags[k]], tags[k + 1..];
    assert tags == a + x + b;
    AgesConcat(a, b);
    AgesConcat(a, x);
    AgesConcat(a + x, b);
    assert Ages(x) == [tags[k].lastModified.value];
  }

  lemma {:induction false} PermutationsShareAges(a: seq<TagDetails>, b: seq<TagDetails>)
    requires multiset(a) == multiset(b) && AllDated(a) && AllDated(b)
    ensures multiset(Ages(a)) == multiset(Ages(b))
  {
    assert |multiset(a)| == |a| && |multiset(b)| == |b|;
    if a != [] {
      assert a[0] in multiset(b);
      var k :| 0 <= k < |b| && b[k] == a[0];
      AgesWithout(a, 0);
      AgesWithout(b, k);
      PermutationsShareAges(a[..0] + a[1..], b[..k] + b[k + 1..]);
    }
  }

  lemma {:induction false} AgesDecideYoung(a: seq<TagDetails>, b: seq<TagDetails>, threshold: int)
    requires AllDated(a) && AllDated(b) && Ages(a) == Ages(b)
    ensures |Young(a, threshold)| == |Young(b, threshold)|
  {
    assert |Ages(a)| == |a| && |Ages(b)| == |b|;
    if a != [] {
      var n := |a| - 1;
      assert Ages(a[..n]) == Ages(a)[..n] && Ages(b[..n]) == Ages(b)[..n];
      assert Ages(a)[n] == Ages(b)[n];
      AgesDecideYoung(a[..n], b[..n], threshold);
    }
  }

  /** However the unstable sort breaks ties, the timestamps kept are the same. */
  lemma TiesDoNotMatter(a: seq<TagDetails>, b: seq<TagDetails>, p: Policy, now: int)
    requires multiset(a) == multiset(b) && UniformAges(a)
    requires AllDated(a) && YoungestFirst(a) && AllDated(b) && YoungestFirst(b)
    requires 0 <= p.minNum && 0 <= p.maxNum
    ensures var ra, rb := Apply(a, Some(p), now), Apply(b, Some(p), now);
            ra.Kept? && rb.Kept? && AllDated(ra.tags) && AllDated(rb.tags) && Ages(ra.tags) == Ages(rb.tags)
  {
    UniformIsPermutable(a, b);
    PermutationsShareAges(a, b);
    SortedAgesDecrease(a);
    SortedAgesDecrease(b);
    SortedIsUnique(Ages(a), Ages(b));
    AgesDecideYoung(a, b, now - p.maxAge);
    ClosedForm(a, p, now);
    ClosedForm(b, p, now);
    assert |Ages(a)| == |a| && |Ages(b)| == |b|;
    var count := KeptCount(|a|, |Young(a, now - p.maxAge)|, p);
    assert Ages(a[..count]) == Ages(a)[..count] && Ages(b[..count]) == Ages(b)[..count];
  }

  lemma SortedAgesDecrease(tags: seq<TagDetails>)
    requires AllDated(tags) && YoungestFirst(tags)
    ensures Decreasing(Ages(tags))
  {
    forall i, j | 0 <= i < j < |Ages(tags)| ensures Ages(tags)[i] >= Ages(tags)[j] {
      assert !Younger(tags[j], tags[i]);
    }
  }

  lemma UniformIsPermutable(a: seq<TagDetails>, b: seq<TagDetails>)
    requires multiset(a) == multiset(b) && UniformAges(a)
    ensures UniformAges(b)
  {
    forall i, j | 0 <= i < |b| && 0 <= j < |b| && b[i].String() == b[j].String()
      ensures b[i].lastModified == b[j].lastModified
    {
      assert b[i] in multiset(a) && b[j] in multiset(a);
      var k :| 0 <= k < |a| && a[k] == b[i];
      var l :| 0 <= l < |a| && a[l] == b[j];
      assert a[k].String() == a[l].String();
    }
  }

  // ---- Monotony ------------------------------------------------------------------------------

  lemma {:induction false} MoreAreYoung(tags: seq<TagDetails>, low: int, high: int)
    requires low <= high
    ensures |Young(tags, high)| <= |Young(tags, low)|
  {
    if tags != [] {
      MoreAreYoung(tags[..|tags| - 1], low, high);
    }
  }

  /** Raising a limit never drops a tag that was kept. */
  lemma RaisingLimitsKeepsMore(tags: seq<TagDetails>, p: Policy, q: Policy, now: int)
    requires AllDated(tags) && YoungestFirst(tags) && UniformAges(tags)
    requires 0 <= p.minNum <= q.minNum && 0 <= p.maxNum <= q.maxNum && p.maxAge <= q.maxAge
    ensures var rp, rq := Apply(tags, Some(p), now), Apply(tags, Some(q), now);
            rp.Kept? && rq.Kept? && rp.tags <= rq.tags
  {
    ClosedForm(tags, p, now);
    ClosedForm(tags, q, now);
    MoreAreYoung(tags, now - q.maxAge, now - p.maxAge);
  }

  /** What is dropped is no younger than anything kept. */
  lemma DroppedAreNoYounger(tags: seq<TagDetails>, p: Policy, now: int) returns (dropped: seq<TagDetails>)
    requires AllDated(tags) && YoungestFirst(tags) && UniformAges(tags)
    requires 0 <= p.minNum && 0 <= p.maxNum
    ensures var r := Apply(tags, Some(p), now);
            && r.Kept? && multiset(r.tags) + multiset(dropped) == multiset(tags)
            && forall i, j :: 0 <= i < |r.tags| && 0 <= j < |dropped| ==>
                 dropped[j].lastModified.Some? && r.tags[i].lastModified.Some?
                 && dropped[j].lastModified.value <= r.tags[i].lastModified.value
  {
    ClosedForm(tags, p, now);
    var count := |Apply(tags, Some(p), now).tags|;
    dropped := tags[count..];
    assert tags == tags[..count] + tags[count..];
  }
}
