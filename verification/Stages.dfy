/** The filter, transform and housekeeping stages of pkg/cim/run.go on complete inputs. */
module Stages {
  import opened Jobs
  import opened TagPolicy
  import opened TagPolicyLaws
  import Interleaver
  import Pipeline
  import Spacing

  // ---- Filter --------------------------------------------------------------------------------

  /** The tags of one image in their order of arrival. */
  function OfSource(tags: seq<TagDetails>, image: string): seq<TagDetails> {
    if tags == [] then []
    else
      var last := tags[|tags| - 1];
      OfSource(tags[..|tags| - 1], image) + if last.image == image then [last] else []
  }

  function Sources(tags: seq<TagDetails>): set<string> {
    set i | 0 <= i < |tags| :: tags[i].image
  }

  lemma SourcesAppend(tags: seq<TagDetails>, tag: TagDetails)
    ensures Sources(tags + [tag]) == Sources(tags) + {tag.image}
  {
    var more := tags + [tag];
    assert forall i :: 0 <= i < |tags| ==> more[i] == tags[i];
    assert more[|tags|] == tag;
  }

  lemma {:induction false} NoTagsOfOtherSources(tags: seq<TagDetails>, image: string)
    requires image !in Sources(tags)
    ensures OfSource(tags, image) == []
  {
    if tags != [] {
      var before, last := tags[..|tags| - 1], tags[|tags| - 1];
      assert tags == before + [last];
      SourcesAppend(before, last);
      NoTagsOfOtherSources(before, image);
    }
  }

  lemma {:induction false} OfSourceComeFrom(tags: seq<TagDetails>, image: string)
    ensures forall tag :: tag in OfSource(tags, image) ==> tag.image == image && tag in tags
  {
    if tags != [] {
      OfSourceComeFrom(tags[..|tags| - 1], image);
    }
  }

  lemma {:induction false} OneSource(tags: seq<TagDetails>, image: string)
    requires forall i :: 0 <= i < |tags| ==> tags[i].image == image
    ensures OfSource(tags, image) == tags
  {
    if tags != [] {
      OneSource(tags[..|tags| - 1], image);
    }
  }

  lemma {:induction false} OfSourceConcat(a: seq<TagDetails>, b: seq<TagDetails>, image: string)
    ensures OfSource(a + b, image) == OfSource(a, image) + OfSource(b, image)
  {
    if b == [] {
      assert a + b == a;
    } else {
      var n := |b| - 1;
      OfSourceConcat(a, b[..n], image);
      assert (a + b)[..|a| + n] == a + b[..n];
    }
  }

  lemma {:induction false} YoungComeFrom(tags: seq<TagDetails>, threshold: int)
    ensures forall tag :: tag in Young(tags, threshold) ==> tag in tags
  {
    if tags != [] {
      YoungComeFrom(tags[..|tags| - 1], threshold);
    }
  }

  lemma {:induction false} UnlistedComeFrom(tags: seq<TagDetails>, listed: set<string>)
    ensures forall tag :: tag in Unlisted(tags, listed) ==> tag in tags
  {
    if tags != [] {
      UnlistedComeFrom(tags[..|tags| - 1], listed);
    }
  }

  lemma KeptComeFrom(tags: seq<TagDetails>, policy: Option<Policy>, now: int)
    requires Apply(tags, policy, now).Kept?
    ensures forall tag :: tag in Apply(tags, policy, now).tags ==> tag in tags
  {
    var young := Young(tags, now - policy.value.maxAge);
    YoungComeFrom(tags, now - policy.value.maxAge);
    UnlistedComeFrom(tags, Names(young));
  }

  /** A possible result of sorting the tags of one image. */
  ghost predicate SortOf(sorted: seq<TagDetails>, tags: seq<TagDetails>) {
    multiset(sorted) == multiset(tags) && |sorted| == |tags| && (AllDated(tags) ==> YoungestFirst(sorted))
  }

  /** The loop over the input channel (lines 179-182). */
  method Group(tags: seq<TagDetails>) returns (tagmap: map<string, seq<TagDetails>>)
    ensures tagmap.Keys == Sources(tags)
    ensures forall image :: image in tagmap ==> tagmap[image] == OfSource(tags, image)
  {
    tagmap := map[];
    for i := 0 to |tags|
      invariant tagmap.Keys == Sources(tags[..i])
      invariant forall image :: image in tagmap ==> tagmap[image] == OfSource(tags[..i], image)
    {
      var x := tags[i];
      assert tags[..i + 1] == tags[..i] + [x];
      assert tags[..i + 1][..i] == tags[..i];
      SourcesAppend(tags[..i], x);
      if x.image !in tagmap {
        NoTagsOfOtherSources(tags[..i], x.image);
      }
      var group := if x.image in tagmap then tagmap[x.image] else [];
      tagmap := tagmap[x.image := group + [x]];
    }
    assert tags[..|tags|] == tags;
  }

  lemma KeptAreOfSource(sorted: seq<TagDetails>, tags: seq<TagDetails>, image: string, policy: Option<Policy>, now: int)
    requires SortOf(sorted, OfSource(tags, image)) && Apply(sorted, policy, now).Kept?
    ensures var kept := Apply(sorted, policy, now).tags;
            forall i :: 0 <= i < |kept| ==> kept[i].image == image
  {
    var kept := Apply(sorted, policy, now).tags;
    KeptComeFrom(sorted, policy, now);
    OfSourceComeFrom(tags, image);
    forall i | 0 <= i < |kept| ensures kept[i].image == image {
      assert kept[i] in sorted;
      assert kept[i] in multiset(sorted);
    }
  }

  /** One round of the loop over images: the sorted tags and what the policy made of them. */
  datatype Round = Round(image: string, sorted: seq<TagDetails>, made: Filtered)

  ghost predicate IsRound(round: Round, tags: seq<TagDetails>, policy: Option<Policy>, now: int) {
    SortOf(round.sorted, OfSource(tags, round.image)) && round.made == Apply(round.sorted, policy, now)
  }

  ghost function RoundImages(rounds: seq<Round>): set<string> {
    if rounds == [] then {} else RoundImages(rounds[..|rounds| - 1]) + {rounds[|rounds| - 1].image}
  }

  /** Rounds for different images, each with the clock read in its turn. */
  ghost predicate AreRounds(rounds: seq<Round>, tags: seq<TagDetails>, policy: Option<Policy>, clock: string -> int) {
    rounds == [] ||
    var before, last := rounds[..|rounds| - 1], rounds[|rounds| - 1];
    && AreRounds(before, tags, policy, clock)
    && last.image !in RoundImages(before)
    && IsRound(last, tags, policy, clock(last.image))
  }

  ghost predicate AllKept(rounds: seq<Round>) {
    forall k :: 0 <= k < |rounds| ==> rounds[k].made.Kept?
  }

  ghost function Collected(rounds: seq<Round>): seq<TagDetails>
    requires AllKept(rounds)
  {
    if rounds == [] then [] else Collected(rounds[..|rounds| - 1]) + rounds[|rounds| - 1].made.tags
  }

  lemma OneMoreRound(rounds: seq<Round>, round: Round, tags: seq<TagDetails>, policy: Option<Policy>,
                     clock: string -> int)
    requires AreRounds(rounds, tags, policy, clock) && round.image !in RoundImages(rounds)
    requires IsRound(round, tags, policy, clock(round.image))
    ensures AreRounds(rounds + [round], tags, policy, clock)
    ensures RoundImages(rounds + [round]) == RoundImages(rounds) + {round.image}
  {
    assert (rounds + [round])[..|rounds|] == rounds;
  }

  lemma OneMoreCollected(rounds: seq<Round>, round: Round)
    requires AllKept(rounds) && round.made.Kept?
    ensures AllKept(rounds + [round]) && Collected(rounds + [round]) == Collected(rounds) + round.made.tags
  {
    assert (rounds + [round])[..|rounds|] == rounds;
  }

  /** The order in which a range over a map yields its keys: any. */
  method AnyOrder(keys: set<string>) returns (order: seq<string>)
    ensures Pipeline.Tags(order) == keys && Pipeline.NoDuplicates(order)
  {
    order := [];
    var todo := keys;
    while todo != {}
      invariant Pipeline.Tags(order) !! todo && Pipeline.Tags(order) + todo == keys
      invariant Pipeline.NoDuplicates(order)
      decreases |todo|
    {
      var key :| key in todo;
      todo := todo - {key};
      NewTagKeepsDistinct(order, key);
      order := order + [key];
    }
  }

  lemma NewTagKeepsDistinct(tags: seq<string>, tag: string)
    requires Pipeline.NoDuplicates(tags) && tag !in Pipeline.Tags(tags)
    ensures Pipeline.NoDuplicates(tags + [tag])
    ensures Pipeline.Tags(tags + [tag]) == Pipeline.Tags(tags) + {tag}
  {
    Pipeline.TagsAppend(tags, tag);
    assert forall i :: 0 <= i < |tags| ==> tags[i] in Pipeline.Tags(tags);
  }

  lemma NextIsNew(order: seq<string>, k: nat)
    requires k < |order| && Pipeline.NoDuplicates(order)
    ensures order[k] !in Pipeline.Tags(order[..k]) && order[k] in Pipeline.Tags(order)
    ensures Pipeline.Tags(order[..k + 1]) == Pipeline.Tags(order[..k]) + {order[k]}
  {
    assert order[..k + 1] == order[..k] + [order[k]];
    Pipeline.TagsAppend(order[..k], order[k]);
  }

  method FilterRound(tags: seq<TagDetails>, group: seq<TagDetails>, image: string, policy: Option<Policy>, now: int)
    returns (r: Filtered, ghost round: Round)
    requires group == OfSource(tags, image)
    ensures IsRound(round, tags, policy, now) && round.image == image && round.made == r
  {
    ghost var sorted;
    r, sorted := FilterImage(group, policy, now);
    round := Round(image, sorted, r);
  }

  /**
   * The filter stage. It sends what the policy makes of the tags of one image after another, each
   * image once, in the order in which the map yields them; it panics exactly when it comes to an
   * image for which the policy does, and has then sent the tags of the rounds before. `clock` is
   * the time read in an image's round.
   */
  method Filter(tags: seq<TagDetails>, policy: Option<Policy>, clock: string -> int)
    returns (panicked: bool, out: seq<TagDetails>, ghost rounds: seq<Round>)
    ensures AreRounds(rounds, tags, policy, clock)
    ensures AllKept(Completed(rounds, panicked)) && out == Collected(Completed(rounds, panicked))
    ensures !panicked ==> RoundImages(rounds) == Sources(tags)
    ensures panicked ==> rounds != [] && rounds[|rounds| - 1].made.Panics?
    ensures panicked ==> rounds[|rounds| - 1].image in Sources(tags)
  {
    var tagmap := Group(tags);
    panicked, out, rounds := false, [], [];
    var order := AnyOrder(tagmap.Keys);
    for k := 0 to |order|
      invariant RoundImages(rounds) == Pipeline.Tags(order[..k]) && |rounds| == k
      invariant AreRounds(rounds, tags, policy, clock)
      invariant AllKept(rounds) && out == Collected(rounds)
    {
      var image := order[k];
      NextIsNew(order, k);
      var r;
      ghost var round;
      r, round := FilterRound(tags, tagmap[image], image, policy, clock(image));
      OneMoreRound(rounds, round, tags, policy, clock);
      if r.Panics? {
        PanickedLast(rounds, round);
        return true, out, rounds + [round];
      }
      OneMoreCollected(rounds, round);
      rounds := rounds + [round];
      out := out + r.tags;
    }
    assert order[..|order|] == order;
  }

  /** The rounds that came to an end. */
  ghost function Completed(rounds: seq<Round>, panicked: bool): seq<Round> {
    if panicked && rounds != [] then rounds[..|rounds| - 1] else rounds
  }

  lemma PanickedLast(rounds: seq<Round>, round: Round)
    ensures Completed(rounds + [round], true) == rounds
  {
  }

  lemma {:induction false} NothingCollected(rounds: seq<Round>, tags: seq<TagDetails>, policy: Option<Policy>,
                                            clock: string -> int, image: string)
    requires AreRounds(rounds, tags, policy, clock) && AllKept(rounds) && image !in RoundImages(rounds)
    ensures OfSource(Collected(rounds), image) == []
  {
    if rounds != [] {
      var before, last := rounds[..|rounds| - 1], rounds[|rounds| - 1];
      NothingCollected(before, tags, policy, clock, image);
      KeptAreOfSource(last.sorted, tags, last.image, policy, clock(last.image));
      OfSourceConcat(Collected(before), last.made.tags, image);
      NoTagsOfOtherSources(last.made.tags, image);
    }
  }

  /**
   * Whatever the order of the rounds, the output holds of every image exactly what its round
   * made, and tags of no other image.
   */
  lemma {:induction false} EachImageIsFiltered(rounds: seq<Round>, tags: seq<TagDetails>, policy: Option<Policy>,
                                               clock: string -> int, k: nat)
    requires AreRounds(rounds, tags, policy, clock) && AllKept(rounds) && k < |rounds|
    ensures OfSource(Collected(rounds), rounds[k].image) == rounds[k].made.tags
    ensures IsRound(rounds[k], tags, policy, clock(rounds[k].image))
  {
    var before, last := rounds[..|rounds| - 1], rounds[|rounds| - 1];
    KeptAreOfSource(last.sorted, tags, last.image, policy, clock(last.image));
    OfSourceConcat(Collected(before), last.made.tags, rounds[k].image);
    if k == |rounds| - 1 {
      NothingCollected(before, tags, policy, clock, last.image);
      OneSource(last.made.tags, last.image);
    } else {
      EachImageIsFiltered(before, tags, policy, clock, k);
      RoundImagesContain(before, k);
      NoTagsOfOtherSources(last.made.tags, rounds[k].image);
    }
  }

  lemma {:induction false} RoundImagesContain(rounds: seq<Round>, k: nat)
    requires k < |rounds|
    ensures rounds[k].image in RoundImages(rounds)
  {
    if k < |rounds| - 1 {
      RoundImagesContain(rounds[..|rounds| - 1], k);
    }
  }

  lemma AllDatedOfSource(tags: seq<TagDetails>, image: string)
    requires AllDated(tags) && UniformAges(tags)
    ensures AllDated(OfSource(tags, image)) && UniformAges(OfSource(tags, image))
  {
    OfSourceComeFrom(tags, image);
    var some := OfSource(tags, image);
    assert forall i :: 0 <= i < |some| ==> some[i] in tags;
  }

  /** With dated, uniform tags and sane limits no round panics and each keeps its closed form. */
  lemma RoundClosedForm(round: Round, tags: seq<TagDetails>, p: Policy, now: int)
    requires AllDated(tags) && UniformAges(tags) && 0 <= p.minNum && 0 <= p.maxNum
    requires IsRound(round, tags, Some(p), now)
    ensures var count := KeptCount(|round.sorted|, |Young(round.sorted, now - p.maxAge)|, p);
            && |round.sorted| == |OfSource(tags, round.image)|
            && 0 <= count <= |round.sorted| && round.made == Kept(round.sorted[..count])
  {
    AllDatedOfSource(tags, round.image);
    UniformIsPermutable(OfSource(tags, round.image), round.sorted);
    DatedIsPermutable(OfSource(tags, round.image), round.sorted);
    ClosedForm(round.sorted, p, now);
  }

  /** A round sorts exactly the tags that name its image, each as often as it came in. */
  lemma RoundHasTagsOfImage(round: Round, tags: seq<TagDetails>, policy: Option<Policy>, now: int, tag: TagDetails)
    requires IsRound(round, tags, policy, now)
    ensures multiset(round.sorted)[tag] == if tag.image == round.image then multiset(tags)[tag] else 0
  {
    OfSourceCounts(tags, round.image, tag);
  }

  lemma {:induction false} OfSourceCounts(tags: seq<TagDetails>, image: string, tag: TagDetails)
    ensures multiset(OfSource(tags, image))[tag] == if tag.image == image then multiset(tags)[tag] else 0
  {
    if tags != [] {
      var before, last := tags[..|tags| - 1], tags[|tags| - 1];
      OfSourceCounts(before, image, tag);
      assert tags == before + [last];
    }
  }

  // ---- Transform -----------------------------------------------------------------------------

  /** `path.Join`: any function of the mirror and the name. */
  type Join = (string, string) -> string

  function JobFor(join: Join, mirror: string, tag: TagDetails): CopyJob {
    CopyJob(tag, TagDetails("", "", join(mirror, tag.String()), None, 0), tag.size)
  }

  /** The jobs of one tag, in the order of the mirrors. */
  function Row(join: Join, tag: TagDetails, mirrors: seq<string>): seq<CopyJob> {
    if mirrors == [] then []
    else Row(join, tag, mirrors[..|mirrors| - 1]) + [JobFor(join, mirrors[|mirrors| - 1], tag)]
  }

  function Rows(join: Join, tags: seq<TagDetails>, mirrors: seq<string>): seq<CopyJob> {
    if tags == [] then [] else Rows(join, tags[..|tags| - 1], mirrors) + Row(join, tags[|tags| - 1], mirrors)
  }

  method Transform(join: Join, tags: seq<TagDetails>, mirrors: seq<string>) returns (out: seq<CopyJob>)
    ensures out == Rows(join, tags, mirrors)
  {
    out := [];
    for i := 0 to |tags|
      invariant out == Rows(join, tags[..i], mirrors)
    {
      for j := 0 to |mirrors|
        invariant out == Rows(join, tags[..i], mirrors) + Row(join, tags[i], mirrors[..j])
      {
        assert mirrors[..j + 1][..j] == mirrors[..j];
        out := out + [JobFor(join, mirrors[j], tags[i])];
      }
      assert mirrors[..|mirrors|] == mirrors;
      assert tags[..i + 1][..i] == tags[..i];
    }
    assert tags[..|tags|] == tags;
  }

  lemma {:induction false} RowMeets(join: Join, tag: TagDetails, mirrors: seq<string>)
    ensures |Row(join, tag, mirrors)| == |mirrors|
    ensures forall job :: job in Row(join, tag, mirrors) <==>
              exists mirror :: mirror in mirrors && job == JobFor(join, mirror, tag)
  {
    if mirrors != [] {
      RowMeets(join, tag, mirrors[..|mirrors| - 1]);
      assert mirrors == mirrors[..|mirrors| - 1] + [mirrors[|mirrors| - 1]];
    }
  }

  /** Every tag goes to every mirror, nothing else is copied, and the numbers multiply. */
  lemma {:induction false} EveryTagForEveryMirror(join: Join, tags: seq<TagDetails>, mirrors: seq<string>)
    ensures |Rows(join, tags, mirrors)| == |tags| * |mirrors|
    ensures forall job :: job in Rows(join, tags, mirrors) <==>
              exists tag, mirror :: tag in tags && mirror in mirrors && job == JobFor(join, mirror, tag)
  {
    if tags != [] {
      var n := |tags| - 1;
      EveryTagForEveryMirror(join, tags[..n], mirrors);
      RowMeets(join, tags[n], mirrors);
      assert tags == tags[..n] + [tags[n]];
      assert (n + 1) * |mirrors| == n * |mirrors| + |mirrors|;
    }
  }

  lemma {:induction false} RowAt(join: Join, tag: TagDetails, mirrors: seq<string>, j: nat)
    requires j < |mirrors|
    ensures |Row(join, tag, mirrors)| == |mirrors| && Row(join, tag, mirrors)[j] == JobFor(join, mirrors[j], tag)
  {
    RowMeets(join, tag, mirrors);
    RowMeets(join, tag, mirrors[..|mirrors| - 1]);
    if j < |mirrors| - 1 {
      RowAt(join, tag, mirrors[..|mirrors| - 1], j);
    }
  }

  /** The job of the i-th tag and the j-th mirror comes at position i times the mirrors plus j. */
  lemma {:induction false} JobAt(join: Join, tags: seq<TagDetails>, mirrors: seq<string>, i: nat, j: nat)
    requires i < |tags| && j < |mirrors|
    ensures i * |mirrors| + j < |Rows(join, tags, mirrors)|
    ensures Rows(join, tags, mirrors)[i * |mirrors| + j] == JobFor(join, mirrors[j], tags[i])
  {
    var n := |tags| - 1;
    EveryTagForEveryMirror(join, tags[..n], mirrors);
    RowAt(join, tags[n], mirrors, j);
    if i < n {
      JobAt(join, tags[..n], mirrors, i, j);
    }
  }

  /** That job on its fields: the tag itself is copied, with its size, to its name in the mirror. */
  lemma JobCopiesTag(join: Join, tags: seq<TagDetails>, mirrors: seq<string>, i: nat, j: nat)
    requires i < |tags| && j < |mirrors|
    ensures i * |mirrors| + j < |Rows(join, tags, mirrors)|
    ensures var job := Rows(join, tags, mirrors)[i * |mirrors| + j];
            && job.src == tags[i] && job.size == tags[i].size
            && job.dst == TagDetails("", "", join(mirrors[j], tags[i].original), None, 0)
  {
    JobAt(join, tags, mirrors, i, j);
  }

  /** The jobs of one tag wait for each other in the buffer exactly when they go to one repository. */
  lemma TwoMirrorsWaitExactlyWhen(join: Join, tag: TagDetails, m: string, n: string, cap: uint64,
                                  x: string, y: string, version: string)
    requires 2 <= cap && ':' !in version
    requires join(m, tag.original) == x + ":" + version && join(n, tag.original) == y + ":" + version
    ensures var jobs := Rows(join, [tag], [m, n]);
            |jobs| == 2 && Interleaver.Held(cap, jobs) == if x == y then [jobs[1]] else []
  {
    var jobs := Rows(join, [tag], [m, n]);
    JobCopiesTag(join, [tag], [m, n], 0, 0);
    JobCopiesTag(join, [tag], [m, n], 0, 1);
    EveryTagForEveryMirror(join, [tag], [m, n]);
    assert jobs == [jobs[0]] + [jobs[1]];
    Spacing.DestinationKeysBuffer(cap, jobs[0], jobs[1], x, version, y, version);
  }

  // ---- Housekeeping --------------------------------------------------------------------------

  /**
   * The goroutine of lines 322-341 once its two channels are complete: it sends, each once and
   * in any order, exactly the resolved tags that are the destination of no job.
   */
  method Housekeep(resolved: seq<string>, jobs: seq<CopyJob>) returns (deltags: seq<string>)
    ensures Pipeline.Tags(deltags) == Pipeline.Tags(resolved) - Pipeline.Destinations(jobs)
    ensures Pipeline.NoDuplicates(deltags)
  {
    var delTagsMap: set<string> := {};
    for i := 0 to |resolved|
      invariant delTagsMap == Pipeline.Tags(resolved[..i])
    {
      assert resolved[..i + 1] == resolved[..i] + [resolved[i]];
      Pipeline.TagsAppend(resolved[..i], resolved[i]);
      delTagsMap := delTagsMap + {resolved[i]};
    }
    assert resolved[..|resolved|] == resolved;
    for i := 0 to |jobs|
      invariant delTagsMap == Pipeline.Tags(resolved) - Pipeline.Destinations(jobs[..i])
    {
      assert jobs[..i + 1] == jobs[..i] + [jobs[i]];
      Pipeline.DestinationsAppend(jobs[..i], jobs[i]);
      delTagsMap := delTagsMap - {jobs[i].dst.String()};
    }
    assert jobs[..|jobs|] == jobs;
    deltags := AnyOrder(delTagsMap);
  }

  // ---- From filter to deletion ---------------------------------------------------------------

  /** No schedule of the pipeline ever deletes, from any mirror, a tag the filter kept. */
  lemma KeptTagsSurvive(join: Join, c: Pipeline.Setup, tags: seq<TagDetails>, mirrors: seq<string>,
                        schedule: seq<Pipeline.Action>, tag: TagDetails, mirror: string)
    requires c.jobs == Rows(join, tags, mirrors) && tag in tags && mirror in mirrors
    requires Pipeline.Exec(c, schedule).Some?
    ensures join(mirror, tag.original) !in Pipeline.Exec(c, schedule).value.deleted
  {
    Pipeline.NoJobIsEverDeleted(c, schedule);
    EveryTagForEveryMirror(join, tags, mirrors);
    var s, job := Pipeline.Exec(c, schedule).value, JobFor(join, mirror, tag);
    assert job in c.jobs;
    var i :| 0 <= i < |c.jobs| && c.jobs[i] == job;
    assert c.jobs[i].dst.original in Pipeline.Destinations(c.jobs);
    assert forall k :: 0 <= k < |s.deleted| ==> s.deleted[k] in Pipeline.Tags(s.deleted);
  }

  /**
   * When every goroutine has ended, what is left in the mirrors of the resolved tags are job
   * destinations, and a resolved tag is gone exactly when no kept tag maps to it.
   */
  lemma DeletedExactlyWhenUnwanted(join: Join, c: Pipeline.Setup, tags: seq<TagDetails>, mirrors: seq<string>,
                                   schedule: seq<Pipeline.Action>, name: string)
    requires c.jobs == Rows(join, tags, mirrors)
    requires Pipeline.Exec(c, schedule).Some? && Pipeline.Final(Pipeline.Exec(c, schedule).value)
    ensures name in Pipeline.Exec(c, schedule).value.deleted <==>
            && name in c.resolved
            && !exists tag, mirror :: tag in tags && mirror in mirrors && name == join(mirror, tag.original)
  {
    Pipeline.FinalOutcome(c, schedule);
    var s := Pipeline.Exec(c, schedule).value;
    assert name in s.deleted <==> name in Pipeline.Tags(s.deleted);
    assert name in c.resolved <==> name in Pipeline.Tags(c.resolved);
    DestinationsOfRows(join, tags, mirrors, name);
  }

  lemma {:induction false} CollectedComeFromRounds(rounds: seq<Round>, tag: TagDetails)
    requires AllKept(rounds)
    ensures tag in Collected(rounds) <==> exists k :: 0 <= k < |rounds| && tag in rounds[k].made.tags
  {
    if rounds != [] {
      var before, last := rounds[..|rounds| - 1], rounds[|rounds| - 1];
      CollectedComeFromRounds(before, tag);
      assert forall k :: 0 <= k < |before| ==> before[k] == rounds[k];
    }
  }

  /** Is the i-th youngest tag of the round's image among those the policy is meant to keep? */
  ghost predicate MeantToStay(round: Round, i: nat, p: Policy, now: int) {
    i < |round.sorted| && i < p.maxNum &&
    (i < p.minNum || (round.sorted[i].lastModified.Some? && now - round.sorted[i].lastModified.value < p.maxAge))
  }

  /** Is `name` the name in a mirror of one of the youngest tags of some image? */
  ghost predicate IsWanted(join: Join, rounds: seq<Round>, p: Policy, clock: string -> int,
                           mirrors: seq<string>, name: string) {
    exists k, i: nat, mirror :: 0 <= k < |rounds| && MeantToStay(rounds[k], i, p, clock(rounds[k].image))
      && mirror in mirrors && name == join(mirror, rounds[k].sorted[i].original)
  }

  lemma WantedAreCollected(join: Join, rounds: seq<Round>, tags: seq<TagDetails>, p: Policy, clock: string -> int,
                           mirrors: seq<string>, name: string)
    requires AllDated(tags) && UniformAges(tags) && 0 <= p.minNum && 0 <= p.maxNum
    requires AreRounds(rounds, tags, Some(p), clock) && AllKept(rounds)
    ensures IsWanted(join, rounds, p, clock, mirrors, name) <==>
            exists tag, mirror :: tag in Collected(rounds) && mirror in mirrors
                                  && name == join(mirror, tag.original)
  {
    forall k | 0 <= k < |rounds|
      ensures forall i: nat :: MeantToStay(rounds[k], i, p, clock(rounds[k].image)) ==>
                rounds[k].sorted[i] in rounds[k].made.tags
      ensures forall tag :: tag in rounds[k].made.tags ==>
                exists i: nat :: MeantToStay(rounds[k], i, p, clock(rounds[k].image)) && rounds[k].sorted[i] == tag
    {
      EachImageIsFiltered(rounds, tags, Some(p), clock, k);
      MadeAreMeantToStay(rounds[k], tags, p, clock(rounds[k].image));
    }
    if k, i: nat, mirror :| 0 <= k < |rounds| && MeantToStay(rounds[k], i, p, clock(rounds[k].image))
                            && mirror in mirrors && name == join(mirror, rounds[k].sorted[i].original) {
      CollectedComeFromRounds(rounds, rounds[k].sorted[i]);
    }
    if tag, mirror :| tag in Collected(rounds) && mirror in mirrors && name == join(mirror, tag.original) {
      CollectedComeFromRounds(rounds, tag);
    }
  }

  lemma MadeAreMeantToStay(round: Round, tags: seq<TagDetails>, p: Policy, now: int)
    requires AllDated(tags) && UniformAges(tags) && 0 <= p.minNum && 0 <= p.maxNum
    requires IsRound(round, tags, Some(p), now)
    ensures round.made.Kept?
    ensures forall i: nat :: MeantToStay(round, i, p, now) ==> round.sorted[i] in round.made.tags
    ensures forall tag :: tag in round.made.tags ==>
              exists i: nat :: MeantToStay(round, i, p, now) && round.sorted[i] == tag
  {
    RoundClosedForm(round, tags, p, now);
    var count := |round.made.tags|;
    StayingIsAPrefix(round, tags, p, now);
    InPrefix(round.sorted, count);
    forall tag | tag in round.made.tags
      ensures exists i: nat :: MeantToStay(round, i, p, now) && round.sorted[i] == tag
    {
      var i: nat :| i < count && round.sorted[i] == tag;
      assert MeantToStay(round, i, p, now);
    }
  }

  lemma StayingIsAPrefix(round: Round, tags: seq<TagDetails>, p: Policy, now: int)
    requires AllDated(tags) && UniformAges(tags) && 0 <= p.minNum && 0 <= p.maxNum
    requires IsRound(round, tags, Some(p), now)
    ensures round.made.Kept? && round.made.tags <= round.sorted
    ensures forall i: nat :: MeantToStay(round, i, p, now) <==> i < |round.made.tags|
  {
    AllDatedOfSource(tags, round.image);
    UniformIsPermutable(OfSource(tags, round.image), round.sorted);
    DatedIsPermutable(OfSource(tags, round.image), round.sorted);
    KeepsExactly(round.sorted, p, now);
  }

  lemma DatedIsPermutable(tags: seq<TagDetails>, sorted: seq<TagDetails>)
    requires AllDated(tags) && multiset(sorted) == multiset(tags)
    ensures AllDated(sorted)
  {
    forall i | 0 <= i < |sorted| ensures sorted[i].lastModified.Some? {
      assert sorted[i] in multiset(tags);
    }
  }

  lemma InPrefix<T>(s: seq<T>, n: nat)
    requires n <= |s|
    ensures forall i: nat :: i < n ==> s[i] in s[..n]
    ensures forall x :: x in s[..n] ==> exists i: nat :: i < n && s[i] == x
  {
    forall i: nat | i < n ensures s[i] in s[..n] {
      assert s[..n][i] == s[i];
    }
    forall x | x in s[..n] ensures exists i: nat :: i < n && s[i] == x {
      var i: nat :| i < n && s[..n][i] == x;
      assert s[i] == x;
    }
  }

  /**
   * From the policy to the registry: when everything has ended, a name has been deleted exactly
   * when it was resolved in a mirror and is not one of the youngest tags, as many as the
   * policy says, of any image.
   */
  lemma DeletedExactlyWhenPolicyDrops(join: Join, c: Pipeline.Setup, rounds: seq<Round>, tags: seq<TagDetails>,
                                      p: Policy, clock: string -> int, mirrors: seq<string>,
                                      schedule: seq<Pipeline.Action>, name: string)
    requires AllDated(tags) && UniformAges(tags) && 0 <= p.minNum && 0 <= p.maxNum
    requires AreRounds(rounds, tags, Some(p), clock) && AllKept(rounds)
    requires c.jobs == Rows(join, Collected(rounds), mirrors)
    requires Pipeline.Exec(c, schedule).Some? && Pipeline.Final(Pipeline.Exec(c, schedule).value)
    ensures name in Pipeline.Exec(c, schedule).value.deleted <==>
            name in c.resolved && !IsWanted(join, rounds, p, clock, mirrors, name)
  {
    DeletedExactlyWhenUnwanted(join, c, Collected(rounds), mirrors, schedule, name);
    WantedAreCollected(join, rounds, tags, p, clock, mirrors, name);
  }

  lemma DestinationsOfRows(join: Join, tags: seq<TagDetails>, mirrors: seq<string>, name: string)
    ensures name in Pipeline.Destinations(Rows(join, tags, mirrors)) <==>
            exists tag, mirror :: tag in tags && mirror in mirrors && name == join(mirror, tag.original)
  {
    EveryTagForEveryMirror(join, tags, mirrors);
    var jobs := Rows(join, tags, mirrors);
    if name in Pipeline.Destinations(jobs) {
      var i :| 0 <= i < |jobs| && jobs[i].dst.original == name;
      assert jobs[i] in jobs;
    }
    if tag, mirror :| tag in tags && mirror in mirrors && name == join(mirror, tag.original) {
      assert JobFor(join, mirror, tag) in jobs;
      var i :| 0 <= i < |jobs| && jobs[i] == JobFor(join, mirror, tag);
      assert jobs[i].dst.original == name;
    }
  }
}
