/**
 * The tag policy of `filter` in pkg/cim/run.go: per image, sort by age, keep what is young
 * enough, top up to a minimum, cut at a maximum. Time is in integer ticks of the clock.
 */
module TagPolicy {
  import opened Jobs

  datatype Policy = Policy(minNum: int, maxNum: int, maxAge: int)

  datatype Filtered = Kept(tags: seq<TagDetails>) | Panics

  // ---- Reading a list of tags ----------------------------------------------------------------

  ghost predicate AllDated(tags: seq<TagDetails>) {
    forall i :: 0 <= i < |tags| ==> tags[i].lastModified.Some?
  }

  /** The order of the sort: younger, when both timestamps are known. */
  predicate Younger(a: TagDetails, b: TagDetails) {
    a.lastModified.Some? && b.lastModified.Some? && a.lastModified.value > b.lastModified.value
  }

  ghost predicate YoungestFirst(tags: seq<TagDetails>) {
    forall i, j :: 0 <= i < j < |tags| && tags[i].lastModified.Some? && tags[j].lastModified.Some? ==>
      tags[i].lastModified.value >= tags[j].lastModified.value
  }

  predicate IsYoung(tag: TagDetails, threshold: int) {
    tag.lastModified.Some? && tag.lastModified.value > threshold
  }

  function Young(tags: seq<TagDetails>, threshold: int): seq<TagDetails> {
    if tags == [] then []
    else
      var last := tags[|tags| - 1];
      Young(tags[..|tags| - 1], threshold) + if IsYoung(last, threshold) then [last] else []
  }

  function Names(tags: seq<TagDetails>): set<string> {
    set i | 0 <= i < |tags| :: tags[i].String()
  }

  /** The tags whose string is not listed. */
  function Unlisted(tags: seq<TagDetails>, listed: set<string>): seq<TagDetails> {
    if tags == [] then []
    else
      var last := tags[|tags| - 1];
      Unlisted(tags[..|tags| - 1], listed) + if last.String() in listed then [] else [last]
  }

  function Min(a: int, b: int): int {
    if a < b then a else b
  }

  function Max(a: int, b: int): int {
    if a < b then b else a
  }

  /** What the policy makes of one image's sorted tags, panics included. */
  ghost function Apply(tags: seq<TagDetails>, policy: Option<Policy>, now: int): Filtered {
    if policy.None? || policy.value.minNum < 0 || !AllDated(tags) then Panics
    else
      var p := policy.value;
      var young := Young(tags, now - p.maxAge);
      var others := Unlisted(tags, Names(young));
      var missing := Max(0, Min(p.minNum, |tags|) - |young|);
      if missing > |others| then Panics
      else
        var kept := young + others[..missing];
        if |kept| <= p.maxNum then Kept(kept)
        else if p.maxNum < 0 then Panics
        else Kept(kept[..p.maxNum])
  }

  // ---- The code ------------------------------------------------------------------------------

  /** Any permutation that is sorted when all timestamps are known, as `sort.Slice` returns one. */
  method SortByAge(tags: seq<TagDetails>) returns (sorted: seq<TagDetails>)
    ensures multiset(sorted) == multiset(tags) && |sorted| == |tags|
    ensures AllDated(tags) ==> AllDated(sorted) && YoungestFirst(sorted)
  {
    sorted := [];
    for i := 0 to |tags|
      invariant multiset(sorted) == multiset(tags[..i]) && |sorted| == i
      invariant AllDated(tags) ==> AllDated(sorted) && YoungestFirst(sorted)
    {
      assert tags[..i + 1] == tags[..i] + [tags[i]];
      sorted := InsertByAge(sorted, tags[i]);
    }
    assert tags[..|tags|] == tags;
  }

  method InsertByAge(tags: seq<TagDetails>, tag: TagDetails) returns (more: seq<TagDetails>)
    ensures multiset(more) == multiset(tags) + multiset{tag} && |more| == |tags| + 1
    ensures AllDated(tags) && YoungestFirst(tags) && tag.lastModified.Some? ==> AllDated(more) && YoungestFirst(more)
  {
    var k := 0;
    while k < |tags| && !Younger(tag, tags[k])
      invariant 0 <= k <= |tags|
      invariant forall l :: 0 <= l < k ==> !Younger(tag, tags[l])
    {
      k := k + 1;
    }
    more := tags[..k] + [tag] + tags[k..];
    InsertKeepsMultiset(tags, k, tag);
    if AllDated(tags) && YoungestFirst(tags) && tag.lastModified.Some? {
      InsertKeepsOrder(tags, k, tag);
    }
  }

  lemma InsertKeepsMultiset(tags: seq<TagDetails>, k: nat, tag: TagDetails)
    requires k <= |tags|
    ensures multiset(tags[..k] + [tag] + tags[k..]) == multiset(tags) + multiset{tag}
  {
    assert tags == tags[..k] + tags[k..];
  }

  lemma InsertKeepsOrder(tags: seq<TagDetails>, k: nat, tag: TagDetails)
    requires k <= |tags| && AllDated(tags) && YoungestFirst(tags) && tag.lastModified.Some?
    requires forall l :: 0 <= l < k ==> !Younger(tag, tags[l])
    requires k < |tags| ==> Younger(tag, tags[k])
    ensures AllDated(tags[..k] + [tag] + tags[k..]) && YoungestFirst(tags[..k] + [tag] + tags[k..])
  {
    var more := tags[..k] + [tag] + tags[k..];
    assert forall i :: 0 <= i < |more| ==> more[i] == if i < k then tags[i] else if i == k then tag else tags[i - 1];
    forall i, j | 0 <= i < j < |more| ensures !Younger(more[j], more[i]) {
      if i == k {
        assert j == k + 1 || !Younger(tags[j - 1], tags[k]);
      }
    }
  }

  /** The first loop (lines 203-208); reading a missing timestamp panics. */
  method KeepYoung(list: seq<TagDetails>, threshold: int)
    returns (ok: bool, ftags: seq<TagDetails>, blacklist: set<string>)
    ensures ok <==> AllDated(list)
    ensures ok ==> ftags == Young(list, threshold) && blacklist == Names(ftags)
  {
    ftags, blacklist := [], {};
    for i := 0 to |list|
      invariant AllDated(list[..i])
      invariant ftags == Young(list[..i], threshold) && blacklist == Names(ftags)
    {
      if list[i].lastModified.None? {
        return false, ftags, blacklist;
      }
      assert list[..i + 1][..i] == list[..i];
      if list[i].lastModified.value > threshold {
        NamesAppend(ftags, list[i]);
        ftags := ftags + [list[i]];
        blacklist := blacklist + {list[i].String()};
      }
    }
    assert list[..|list|] == list;
    ok := true;
  }

  /** The second loop (lines 211-219); running off the end of the list panics. */
  method TopUp(list: seq<TagDetails>, young: seq<TagDetails>, blacklist: set<string>, minNum: int)
    returns (ok: bool, ftags: seq<TagDetails>)
    ensures var missing := Max(0, Min(minNum, |list|) - |young|);
            && (ok <==> missing <= |Unlisted(list, blacklist)|)
            && (ok ==> ftags == young + Unlisted(list, blacklist)[..missing])
  {
    ftags := young;
    var ix := 0;
    while |ftags| < minNum && |list| > |ftags|
      invariant 0 <= ix <= |list|
      invariant ftags == young + Unlisted(list[..ix], blacklist)
      invariant |ftags| == |young| || |ftags| <= Min(minNum, |list|)
      decreases |list| - ix
    {
      if ix == |list| {
        assert list[..ix] == list;
        return false, ftags;
      }
      UnlistedStep(list, blacklist, ix);
      if list[ix].String() !in blacklist {
        ftags := ftags + [list[ix]];
      }
      ix := ix + 1;
    }
    UnlistedGrows(list, blacklist, ix);
    ok := true;
  }

  /** One round of the loop over images (lines 186-230). */
  method FilterImage(tags: seq<TagDetails>, policy: Option<Policy>, now: int)
    returns (r: Filtered, ghost sorted: seq<TagDetails>)
    ensures multiset(sorted) == multiset(tags) && |sorted| == |tags|
    ensures AllDated(tags) ==> YoungestFirst(sorted)
    ensures r == Apply(sorted, policy, now)
  {
    var list := SortByAge(tags);
    sorted := list;
    if policy.None? || policy.value.minNum < 0 {
      return Panics, sorted;
    }
    var ok, young, blacklist := KeepYoung(list, now - policy.value.maxAge);
    if !ok {
      return Panics, sorted;
    }
    var ftags;
    ok, ftags := TopUp(list, young, blacklist, policy.value.minNum);
    if !ok {
      return Panics, sorted;
    }
    if |ftags| > policy.value.maxNum {
      if policy.value.maxNum < 0 {
        return Panics, sorted;
      }
      ftags := ftags[..policy.value.maxNum];
    }
    return Kept(ftags), sorted;
  }

  lemma NamesAppend(tags: seq<TagDetails>, tag: TagDetails)
    ensures Names(tags + [tag]) == Names(tags) + {tag.String()}
  {
    var more := tags + [tag];
    assert forall i :: 0 <= i < |tags| ==> more[i] == tags[i];
    assert more[|tags|] == tag;
  }

  lemma UnlistedStep(tags: seq<TagDetails>, listed: set<string>, n: nat)
    requires n < |tags|
    ensures Unlisted(tags[..n + 1], listed)
         == Unlisted(tags[..n], listed) + if tags[n].String() in listed then [] else [tags[n]]
  {
    assert tags[..n + 1][..n] == tags[..n];
  }

  lemma {:induction false} UnlistedGrows(tags: seq<TagDetails>, listed: set<string>, n: nat)
    requires n <= |tags|
    ensures Unlisted(tags[..n], listed) <= Unlisted(tags, listed)
  {
    if n == |tags| {
      assert tags[..n] == tags;
    } else {
      UnlistedGrows(tags[..|tags| - 1], listed, n);
      assert tags[..|tags| - 1][..n] == tags[..n];
    }
  }
}
