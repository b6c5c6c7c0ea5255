/**
 * Advertisement selection (class AdvertisementSelectionLogic): for a customer
 * and a marketplace, gather the marketplace's contents, their targeting groups,
 * keep the groups whose targeting verdict is TRUE, rank them by click-through
 * rate and return the content of the top group, or the empty advertisement.
 */
module Selection {
  import opened Wrappers
  import opened Targeting
  import opened Streams

  /** One advertisement that can be rendered. */
  datatype AdvertisementContent = AdvertisementContent(
    contentId: string,
    renderableContent: string,
    marketplaceId: string)

  /** The selection result: `Empty` is the empty advertisement, `Ad` wraps the chosen content. */
  datatype GeneratedAdvertisement = Empty | Ad(content: AdvertisementContent)

  /** Content lookup by marketplace id. */
  type ContentDao = string -> seq<AdvertisementContent>

  /** Targeting-group lookup by content id. */
  type TargetingGroupDao = string -> seq<TargetingGroup>

  /** StringUtils.isEmpty: null or the empty string. A blank string such as " " is not empty. */
  predicate IsEmpty(s: Option<string>)
    ensures IsEmpty(s) <==> s.None? || |s.value| == 0
  {
    s == None || s == Some("")
  }

  /** Null and "" are empty; a blank " " is not, so it is looked up like any other id. */
  lemma BlankIsNotEmpty()
    ensures IsEmpty(None) && IsEmpty(Some(""))
    ensures !IsEmpty(Some(" "))
  {
  }

  /** The content ids of `contents`, one per content, in order. */
  function IdsOf(contents: seq<AdvertisementContent>): seq<string> {
    seq(|contents|, i requires 0 <= i < |contents| => contents[i].contentId)
  }

  /**
   * The distinct content ids: each id of `contents` exactly once, ordered by
   * where it first occurs in `contents`.
   */
  function ContentIds(contents: seq<AdvertisementContent>): (ids: seq<string>)
    ensures NoDuplicates(ids)
    ensures forall id :: id in ids <==> exists i | 0 <= i < |contents| :: contents[i].contentId == id
    ensures forall id | id in ids :: id in IdsOf(contents)
    ensures forall i, j | 0 <= i < j < |ids| ::
              FirstIndex(IdsOf(contents), ids[i]) < FirstIndex(IdsOf(contents), ids[j])
  {
    var all := IdsOf(contents);
    DistinctProperties(all);
    assert forall i | 0 <= i < |contents| :: all[i] == contents[i].contentId;
    Distinct(all)
  }

  // ---------------------------------------------------------------------------
  // The candidate pool built by the addAll loop: the groups of every content id,
  // concatenated in order

  /** The groups that `lookup` returns for each id of `ids`, concatenated in the order of `ids`. */
  function Pool(lookup: string -> seq<TargetingGroup>, ids: seq<string>): seq<TargetingGroup>
    decreases |ids|
  {
    if ids == [] then [] else lookup(ids[0]) + Pool(lookup, ids[1..])
  }

  /** Appending one id to `ids` appends that id's groups to the pool. */
  lemma {:induction false} PoolAppend(lookup: string -> seq<TargetingGroup>, ids: seq<string>, id: string)
    ensures Pool(lookup, ids + [id]) == Pool(lookup, ids) + lookup(id)
    decreases |ids|
  {
    if ids != [] {
      assert (ids + [id])[1..] == ids[1..] + [id];
      PoolAppend(lookup, ids[1..], id);
    } else {
      assert Pool(lookup, [id]) == lookup(id) + Pool(lookup, []);
    }
  }

  /** A group is in the pool exactly when the lookup of one of the ids returns it. */
  lemma {:induction false} PoolMembers(lookup: string -> seq<TargetingGroup>, ids: seq<string>, g: TargetingGroup)
    ensures g in Pool(lookup, ids) <==> exists k | 0 <= k < |ids| :: g in lookup(ids[k])
    decreases |ids|
  {
    if ids != [] {
      PoolMembers(lookup, ids[1..], g);
      if g in Pool(lookup, ids[1..]) {
        var k :| 0 <= k < |ids[1..]| && g in lookup(ids[1..][k]);
        assert g in lookup(ids[k + 1]);
      }
      if exists k | 0 <= k < |ids| :: g in lookup(ids[k]) {
        var k :| 0 <= k < |ids| && g in lookup(ids[k]);
        if k > 0 {
          assert ids[1..][k - 1] == ids[k];
        }
      }
    }
  }

  /** `i` is the first position of `contents` whose content id is `id`. */
  ghost predicate IsFirstWithId(contents: seq<AdvertisementContent>, id: string, i: int) {
    && 0 <= i < |contents|
    && contents[i].contentId == id
    && (forall j | 0 <= j < i :: contents[j].contentId != id)
  }

  /** The first content whose id is `id`, as an advertisement, or Empty when there is none. */
  function FindContent(contents: seq<AdvertisementContent>, id: string): (r: GeneratedAdvertisement)
    ensures r == Empty <==> forall i | 0 <= i < |contents| :: contents[i].contentId != id
    ensures r.Ad? ==> r.content in contents && r.content.contentId == id
    decreases |contents|
  {
    if contents == [] then Empty
    else if contents[0].contentId == id then Ad(contents[0])
    else FindContent(contents[1..], id)
  }

  /** The lookup returns exactly the content at the first position carrying the id. */
  lemma {:induction false} FindContentIsFirstMatch(contents: seq<AdvertisementContent>, id: string, i: int)
    requires IsFirstWithId(contents, id, i)
    ensures FindContent(contents, id) == Ad(contents[i])
    decreases |contents|
  {
    if i > 0 {
      FindContentIsFirstMatch(contents[1..], id, i - 1);
    }
  }

  /**
   * What selectAdvertisement returns: Empty for an empty marketplace id;
   * otherwise the content of the head of the eligible groups sorted by CTR,
   * or Empty when no group is eligible.
   */
  function Select(contentDao: ContentDao, targetingGroupDao: TargetingGroupDao,
                  customerId: Option<string>, marketplaceId: Option<string>): (r: GeneratedAdvertisement)
    ensures IsEmpty(marketplaceId) ==> r == Empty
    ensures r.Ad? ==> !IsEmpty(marketplaceId) && r.content in contentDao(marketplaceId.value)
  {
    if IsEmpty(marketplaceId) then Empty
    else
      var contents := contentDao(marketplaceId.value);
      var pool := Pool(targetingGroupDao, ContentIds(contents));
      var ranked := SortByCtrDescending(Eligible(RequestContext(customerId, marketplaceId), pool));
      if |ranked| == 0 then Empty else FindContent(contents, ranked[0].contentId)
  }

  /** The candidate pool for a non-null marketplace id. */
  ghost function CandidatePool(contentDao: ContentDao, targetingGroupDao: TargetingGroupDao,
                               marketplaceId: Option<string>): seq<TargetingGroup>
    requires marketplaceId.Some?
  {
    Pool(targetingGroupDao, ContentIds(contentDao(marketplaceId.value)))
  }

  /** An empty marketplace id yields Empty whatever the two lookups would return. */
  lemma EmptyMarketplaceYieldsEmpty(contentDao: ContentDao, targetingGroupDao: TargetingGroupDao,
                                    customerId: Option<string>, marketplaceId: Option<string>)
    requires IsEmpty(marketplaceId)
    ensures Select(contentDao, targetingGroupDao, customerId, marketplaceId) == Empty
  {
  }

  /** With no eligible group in the pool, the result is Empty. */
  lemma NoEligibleYieldsEmpty(contentDao: ContentDao, targetingGroupDao: TargetingGroupDao,
                              customerId: Option<string>, marketplaceId: Option<string>)
    requires !IsEmpty(marketplaceId)
    requires var pool := CandidatePool(contentDao, targetingGroupDao, marketplaceId);
             forall j | 0 <= j < |pool| :: !IsEligible(RequestContext(customerId, marketplaceId), pool[j])
    ensures Select(contentDao, targetingGroupDao, customerId, marketplaceId) == Empty
  {
    EligibleEmpty(RequestContext(customerId, marketplaceId),
                  CandidatePool(contentDao, targetingGroupDao, marketplaceId));
  }

  /**
   * The ranking picks the top eligible group (highest CTR, earliest among equal
   * CTRs), and the result is the first content carrying that group's content id.
   */
  lemma TopEligibleDecides(contentDao: ContentDao, targetingGroupDao: TargetingGroupDao,
                           customerId: Option<string>, marketplaceId: Option<string>, k: int)
    requires !IsEmpty(marketplaceId)
    requires IsTopEligible(RequestContext(customerId, marketplaceId),
                           CandidatePool(contentDao, targetingGroupDao, marketplaceId), k)
    ensures Select(contentDao, targetingGroupDao, customerId, marketplaceId) ==
            FindContent(contentDao(marketplaceId.value),
                        CandidatePool(contentDao, targetingGroupDao, marketplaceId)[k].contentId)
  {
    var ctx := RequestContext(customerId, marketplaceId);
    var pool := CandidatePool(contentDao, targetingGroupDao, marketplaceId);
    var es := Eligible(ctx, pool);
    EligibleComplete(ctx, pool, k);
    var m := FirstMaxIndex(es);
    SortHeadIsFirstMax(es);
    FirstMaxOfEligible(ctx, pool, m);
    var k' :| IsTopEligible(ctx, pool, k') && pool[k'] == es[m];
    TopEligibleUnique(ctx, pool, k, k');
  }

  /**
   * A returned advertisement comes from the top eligible group of the pool and
   * wraps the first content whose id is that group's content id.
   */
  lemma WinnerIsTopEligible(contentDao: ContentDao, targetingGroupDao: TargetingGroupDao,
                            customerId: Option<string>, marketplaceId: Option<string>)
    requires Select(contentDao, targetingGroupDao, customerId, marketplaceId).Ad?
    ensures !IsEmpty(marketplaceId)
    ensures exists k, i ::
              && IsTopEligible(RequestContext(customerId, marketplaceId),
                               CandidatePool(contentDao, targetingGroupDao, marketplaceId), k)
              && IsFirstWithId(contentDao(marketplaceId.value),
                               CandidatePool(contentDao, targetingGroupDao, marketplaceId)[k].contentId, i)
              && Select(contentDao, targetingGroupDao, customerId, marketplaceId).content ==
                 contentDao(marketplaceId.value)[i]
  {
    var ctx := RequestContext(customerId, marketplaceId);
    var pool := CandidatePool(contentDao, targetingGroupDao, marketplaceId);
    var contents := contentDao(marketplaceId.value);
    TopEligibleExists(ctx, pool);
    var k :| IsTopEligible(ctx, pool, k);
    TopEligibleDecides(contentDao, targetingGroupDao, customerId, marketplaceId, k);
    var id := pool[k].contentId;
    var all := IdsOf(contents);
    assert |all| == |contents| && forall j | 0 <= j < |contents| :: all[j] == contents[j].contentId;
    assert exists i | 0 <= i < |contents| :: all[i] == id;
    var i := FirstIndex(all, id);
    FindContentIsFirstMatch(contents, id, i);
  }

  /**
   * The result is Empty exactly when the marketplace id is empty, no group is
   * eligible, or no content carries the top eligible group's content id (there
   * is no fallback to a lower-ranked group).
   */
  lemma EmptyResultCases(contentDao: ContentDao, targetingGroupDao: TargetingGroupDao,
                         customerId: Option<string>, marketplaceId: Option<string>)
    ensures Select(contentDao, targetingGroupDao, customerId, marketplaceId) == Empty <==>
            || IsEmpty(marketplaceId)
            || (var ctx, pool := RequestContext(customerId, marketplaceId),
                                 CandidatePool(contentDao, targetingGroupDao, marketplaceId);
                || (forall j | 0 <= j < |pool| :: !IsEligible(ctx, pool[j]))
                || exists k :: IsTopEligible(ctx, pool, k) &&
                     forall i | 0 <= i < |contentDao(marketplaceId.value)| ::
                       contentDao(marketplaceId.value)[i].contentId != pool[k].contentId)
  {
    if !IsEmpty(marketplaceId) {
      var ctx := RequestContext(customerId, marketplaceId);
      var pool := CandidatePool(contentDao, targetingGroupDao, marketplaceId);
      EligibleEmpty(ctx, pool);
      TopEligibleExists(ctx, pool);
      if Eligible(ctx, pool) != [] {
        var k :| IsTopEligible(ctx, pool, k);
        TopEligibleDecides(contentDao, targetingGroupDao, customerId, marketplaceId, k);
        forall k' | IsTopEligible(ctx, pool, k') ensures k' == k {
          TopEligibleUnique(ctx, pool, k, k');
        }
      } else {
        NoEligibleYieldsEmpty(contentDao, targetingGroupDao, customerId, marketplaceId);
      }
    }
  }

  /**
   * When the group lookup returns only groups of the content id it was asked
   * for, an eligible group always yields an advertisement: every pool group then
   * names a content id taken from the marketplace's contents.
   */
  lemma ConsistentLookupYieldsAd(contentDao: ContentDao, targetingGroupDao: TargetingGroupDao,
                                 customerId: Option<string>, marketplaceId: Option<string>)
    requires forall id, g | g in targetingGroupDao(id) :: g.contentId == id
    requires !IsEmpty(marketplaceId)
    requires var pool := CandidatePool(contentDao, targetingGroupDao, marketplaceId);
             exists j | 0 <= j < |pool| :: IsEligible(RequestContext(customerId, marketplaceId), pool[j])
    ensures Select(contentDao, targetingGroupDao, customerId, marketplaceId).Ad?
  {
    var ctx := RequestContext(customerId, marketplaceId);
    var contents := contentDao(marketplaceId.value);
    var ids := ContentIds(contents);
    var pool := CandidatePool(contentDao, targetingGroupDao, marketplaceId);
    EligibleEmpty(ctx, pool);
    TopEligibleExists(ctx, pool);
    var k :| IsTopEligible(ctx, pool, k);
    TopEligibleDecides(contentDao, targetingGroupDao, customerId, marketplaceId, k);
    PoolMembers(targetingGroupDao, ids, pool[k]);
    var q :| 0 <= q < |ids| && pool[k] in targetingGroupDao(ids[q]);
    assert ids[q] in ids;
  }

  /** Example content lookup: every marketplace has one content, "a". */
  function ExampleContents(marketplaceId: string): seq<AdvertisementContent> {
    [AdvertisementContent("a", "render-a", marketplaceId)]
  }

  /**
   * Example group lookup: content "a" has a group of CTR 0.9 that names content
   * "b", then a group of CTR 0.5 that names "a"; both have no predicates.
   */
  function ExampleGroups(contentId: string): seq<TargetingGroup> {
    if contentId == "a" then [TargetingGroup("g1", "b", 0.9, []), TargetingGroup("g2", "a", 0.5, [])]
    else []
  }

  /**
   * A concrete case: the top group names a content id that no content carries,
   * so the result is Empty, although the next group is eligible and its content
   * exists.
   */
  lemma NoFallbackToNextRanked(customerId: Option<string>)
    ensures Select(ExampleContents, ExampleGroups, customerId, Some("m")) == Empty
    ensures IsEligible(RequestContext(customerId, Some("m")), ExampleGroups("a")[1])
    ensures FindContent(ExampleContents("m"), ExampleGroups("a")[1].contentId).Ad?
  {
    var contents := ExampleContents("m");
    ExampleRanking(RequestContext(customerId, Some("m")));
    assert FindContent(contents, "b") == FindContent(contents[1..], "b");
  }

  /** In the example, the ranked eligible groups start with the group naming "b". */
  lemma ExampleRanking(ctx: RequestContext)
    ensures var ranked := SortByCtrDescending(Eligible(ctx, Pool(ExampleGroups, ContentIds(ExampleContents("m")))));
            |ranked| > 0 && ranked[0].contentId == "b"
  {
    ExampleContentIds();
    var g1, g2 := ExampleGroups("a")[0], ExampleGroups("a")[1];
    assert Pool(ExampleGroups, ["a"][1..]) == [];
    assert Pool(ExampleGroups, ["a"]) == [g1, g2];
    assert [g1, g2][..1] == [g1];
    assert Eligible(ctx, [g1]) == [g1];
    assert Eligible(ctx, [g1, g2]) == [g1, g2];
    assert SortByCtrDescending([g2]) == [g2];
    assert SortByCtrDescending([g1, g2]) == [g1, g2];
  }

  /** In the example, the only content id is "a". */
  lemma ExampleContentIds()
    ensures ContentIds(ExampleContents("m")) == ["a"]
  {
    assert IdsOf(ExampleContents("m")) == ["a"];
    assert Distinct(["a"]) == ["a"];
  }

  /** Picks the advertisement to render, with the two lookups it is built from. */
  class AdvertisementSelectionLogic {
    const contentDao: ContentDao
    const targetingGroupDao: TargetingGroupDao

    constructor (contentDao: ContentDao, targetingGroupDao: TargetingGroupDao)
      ensures this.contentDao == contentDao && this.targetingGroupDao == targetingGroupDao
    {
      this.contentDao := contentDao;
      this.targetingGroupDao := targetingGroupDao;
    }

    /**
     * The advertisement for `customerId` on `marketplaceId`: the pool is built by
     * appending each content id's groups, each group is judged by one evaluator
     * for the request context, and the content of the highest-ranked eligible
     * group is searched for in `contents`.
     */
    method SelectAdvertisement(customerId: Option<string>, marketplaceId: Option<string>)
      returns (r: GeneratedAdvertisement)
      ensures r == Select(contentDao, targetingGroupDao, customerId, marketplaceId)
    {
      r := Empty;
      if IsEmpty(marketplaceId) {
        return;
      }
      var contents := contentDao(marketplaceId.value);
      var contentIds := ContentIds(contents);

      var targetingGroups := [];
      for i := 0 to |contentIds|
        invariant targetingGroups == Pool(targetingGroupDao, contentIds[..i])
      {
        PoolAppend(targetingGroupDao, contentIds[..i], contentIds[i]);
        assert contentIds[..i + 1] == contentIds[..i] + [contentIds[i]];
        targetingGroups := targetingGroups + targetingGroupDao(contentIds[i]);
      }
      assert contentIds[..|contentIds|] == contentIds;

      var targetingEvaluator := new TargetingEvaluator(RequestContext(customerId, marketplaceId));
      var eligible := [];
      for i := 0 to |targetingGroups|
        invariant eligible == Eligible(targetingEvaluator.requestContext, targetingGroups[..i])
      {
        var verdict := targetingEvaluator.Evaluate(targetingGroups[i]);
        assert targetingGroups[..i + 1][..i] == targetingGroups[..i];
        if verdict == TRUE {
          eligible := eligible + [targetingGroups[i]];
        }
      }
      assert targetingGroups[..|targetingGroups|] == targetingGroups;

      var ranked := SortByCtrDescending(eligible);
      if |ranked| > 0 {
        var first := ranked[0];
        for i := 0 to |contents|
          invariant forall j | 0 <= j < i :: contents[j].contentId != first.contentId
        {
          if first.contentId == contents[i].contentId {
            FindContentIsFirstMatch(contents, first.contentId, i);
            return Ad(contents[i]);
          }
        }
      }
    }
  }
}
