/** One block of a superblock's introduction page: which of its challenges
    the camper has completed, whether the block is a certification project,
    and which of the three layouts renders it. */
module Block {

  datatype Challenge = Challenge(id: string, order: int, challengeType: int)

  /** A challenge with the `isCompleted` flag the page adds to it. */
  datatype TaggedChallenge = TaggedChallenge(challenge: Challenge, isCompleted: bool)

  /** A completed challenge as the store keeps it. */
  datatype CompletedChallenge = CompletedChallenge(id: string, completedDate: int)

  const TakeHomeProjects := "take-home-projects"

  // ---------------------------------------------------------------------
  // The completion tally

  /** The challenges in order, each tagged with whether its id was
      completed. */
  function TagCompleted(challenges: seq<Challenge>, completedChallengeIds: seq<string>): (r: seq<TaggedChallenge>)
    ensures |r| == |challenges|
    ensures forall i :: 0 <= i < |r| ==> r[i].challenge == challenges[i]
    ensures forall i :: 0 <= i < |r| ==> (r[i].isCompleted <==> challenges[i].id in completedChallengeIds)
  {
    seq(|challenges|, i requires 0 <= i < |challenges| =>
      TaggedChallenge(challenges[i], challenges[i].id in completedChallengeIds))
  }

  /** The number of tagged challenges marked completed. */
  function CountCompleted(tagged: seq<TaggedChallenge>): (n: nat)
    ensures n <= |tagged|
  {
    if tagged == [] then 0
    else CountCompleted(tagged[..|tagged| - 1]) + (if tagged[|tagged| - 1].isCompleted then 1 else 0)
  }

  /** Every challenge counts exactly when all are completed; an empty block
      counts as complete. */
  lemma {:induction false} CountCompletedAll(tagged: seq<TaggedChallenge>)
    ensures CountCompleted(tagged) == |tagged| <==> forall i :: 0 <= i < |tagged| ==> tagged[i].isCompleted
  {
    if tagged != [] {
      var front := tagged[..|tagged| - 1];
      CountCompletedAll(front);
      assert forall i :: 0 <= i < |front| ==> front[i] == tagged[i];
    }
  }

  /** The `map` over the block's challenges: tags each one and counts the
      completed ones in a running counter. */
  method Tally(challenges: seq<Challenge>, completedChallengeIds: seq<string>)
    returns (completedCount: nat, challengesWithCompleted: seq<TaggedChallenge>)
    ensures challengesWithCompleted == TagCompleted(challenges, completedChallengeIds)
    ensures completedCount == CountCompleted(challengesWithCompleted)
    ensures completedCount <= |challenges|
    ensures completedCount == |challengesWithCompleted| <==>
              forall i :: 0 <= i < |challenges| ==> challenges[i].id in completedChallengeIds
  {
    completedCount := 0;
    challengesWithCompleted := [];
    for i := 0 to |challenges|
      invariant |challengesWithCompleted| == i
      invariant forall k :: 0 <= k < i ==>
                  challengesWithCompleted[k] == TaggedChallenge(challenges[k], challenges[k].id in completedChallengeIds)
      invariant completedCount == CountCompleted(challengesWithCompleted)
    {
      var id := challenges[i].id;
      var isCompleted := id in completedChallengeIds;
      if isCompleted {
        completedCount := completedCount + 1;
      }
      var tagged := challengesWithCompleted + [TaggedChallenge(challenges[i], isCompleted)];
      assert tagged[..|tagged| - 1] == challengesWithCompleted;
      challengesWithCompleted := tagged;
    }
    CountCompletedAll(challengesWithCompleted);
  }

  /** The green check mark: every challenge of the block is completed. */
  function ShowsCheckMark(completedCount: nat, challengesWithCompleted: seq<TaggedChallenge>): (r: bool)
    ensures completedCount == CountCompleted(challengesWithCompleted) ==>
              (r <==> forall i :: 0 <= i < |challengesWithCompleted| ==> challengesWithCompleted[i].isCompleted)
  {
    CountCompletedAll(challengesWithCompleted);
    completedCount == |challengesWithCompleted|
  }

  /** The check mark after the tally of an empty block. */
  method EmptyBlockTally(completedChallengeIds: seq<string>) returns (shown: bool)
    ensures shown
  {
    var count, tagged := Tally([], completedChallengeIds);
    shown := ShowsCheckMark(count, tagged);
  }

  // ---------------------------------------------------------------------
  // Project blocks

  /** The test applied to each challenge by `some`. */
  predicate IsProjectChallenge(blockDashedName: string, c: Challenge)
    ensures blockDashedName == TakeHomeProjects ==> !IsProjectChallenge(blockDashedName, c)
    ensures IsProjectChallenge(blockDashedName, c) ==> c.challengeType in {3, 4, 5, 10}
  {
    var isJsProject := c.order == 10 && c.challengeType == 5;
    var isOtherProject := c.challengeType == 3 || c.challengeType == 4 || c.challengeType == 10;
    var isTakeHomeProject := blockDashedName == TakeHomeProjects;
    (isJsProject && !isTakeHomeProject) || (isOtherProject && !isTakeHomeProject)
  }

  /** `challenges.some(...)`: the first challenge that passes decides. */
  function IsProjectBlock(blockDashedName: string, challenges: seq<Challenge>): (r: bool)
    ensures r <==> exists i :: 0 <= i < |challenges| && IsProjectChallenge(blockDashedName, challenges[i])
  {
    if challenges == [] then false
    else if IsProjectChallenge(blockDashedName, challenges[0]) then true
    else
      assert forall i :: 1 <= i < |challenges| ==> challenges[i] == challenges[1..][i - 1];
      IsProjectBlock(blockDashedName, challenges[1..])
  }

  /** Challenge types 3, 4 and 10, and type 5 at position 10, are
      certification projects. */
  predicate IsCertificationProject(c: Challenge)
  {
    (c.order == 10 && c.challengeType == 5) || c.challengeType in {3, 4, 10}
  }

  /** A block is a project block exactly when it is not the take-home block
      and one of its challenges is a certification project. */
  lemma ProjectBlockIff(blockDashedName: string, challenges: seq<Challenge>)
    ensures IsProjectBlock(blockDashedName, challenges) <==>
            blockDashedName != TakeHomeProjects &&
            exists i :: 0 <= i < |challenges| && IsCertificationProject(challenges[i])
  {
    if blockDashedName != TakeHomeProjects {
      forall i | 0 <= i < |challenges|
        ensures IsProjectChallenge(blockDashedName, challenges[i]) <==> IsCertificationProject(challenges[i])
      {
      }
    }
  }

  /** The take-home block is never a project block, whatever it holds. */
  lemma TakeHomeNeverProject(challenges: seq<Challenge>)
    ensures !IsProjectBlock(TakeHomeProjects, challenges)
  {
  }

  // ---------------------------------------------------------------------
  // Layout

  datatype Renderer = ProjectBlock | AltBlock | DefaultBlock

  /** Project blocks first, then the grid layout of the new responsive web
      design certification, then the default block. */
  function BlockRenderer(isProjectBlock: bool, isNewResponsiveWebDesign: bool): (r: Renderer)
    ensures r == ProjectBlock <==> isProjectBlock
    ensures r == AltBlock <==> !isProjectBlock && isNewResponsiveWebDesign
    ensures r == DefaultBlock <==> !isProjectBlock && !isNewResponsiveWebDesign
  {
    if isProjectBlock then ProjectBlock
    else if isNewResponsiveWebDesign then AltBlock
    else DefaultBlock
  }

  /** The spacer after the block: left out exactly under the grid layout. */
  function ShowSpacer(isProjectBlock: bool, isNewResponsiveWebDesign: bool): (r: bool)
    ensures !r <==> BlockRenderer(isProjectBlock, isNewResponsiveWebDesign) == AltBlock
  {
    !(isNewResponsiveWebDesign && !isProjectBlock)
  }

  /** For a block: the layout, with `isNewResponsiveWebDesign` the answer of
      the certification test for its superblock. */
  function BlockLayout(blockDashedName: string, challenges: seq<Challenge>, isNewResponsiveWebDesign: bool): (r: (Renderer, bool))
    ensures blockDashedName == TakeHomeProjects ==> r.0 != ProjectBlock
    ensures r.0 == AltBlock <==> !r.1
  {
    var isProject := IsProjectBlock(blockDashedName, challenges);
    (BlockRenderer(isProject, isNewResponsiveWebDesign), ShowSpacer(isProject, isNewResponsiveWebDesign))
  }

  // ---------------------------------------------------------------------
  // Store projection

  /** The ids of the completed challenges, in order. */
  function CompletedIds(completedChallenges: seq<CompletedChallenge>): (r: seq<string>)
    ensures |r| == |completedChallenges|
    ensures forall i :: 0 <= i < |r| ==> r[i] == completedChallenges[i].id
  {
    if completedChallenges == [] then []
    else [completedChallenges[0].id] + CompletedIds(completedChallenges[1..])
  }

  /** An id is in the projection exactly when some completed challenge
      carries it. */
  lemma CompletedIdsMembership(completedChallenges: seq<CompletedChallenge>, id: string)
    ensures id in CompletedIds(completedChallenges) <==>
            exists k :: 0 <= k < |completedChallenges| && completedChallenges[k].id == id
  {
    var ids := CompletedIds(completedChallenges);
    if id in ids {
      var k :| 0 <= k < |ids| && ids[k] == id;
      assert completedChallenges[k].id == id;
    }
  }

  /** From the store to the page: a challenge is marked completed exactly
      when the store holds a completed challenge with its id. */
  lemma TaggedFromStore(challenges: seq<Challenge>, completedChallenges: seq<CompletedChallenge>, i: int)
    requires 0 <= i < |challenges|
    ensures TagCompleted(challenges, CompletedIds(completedChallenges))[i].isCompleted <==>
            exists k :: 0 <= k < |completedChallenges| && completedChallenges[k].id == challenges[i].id
  {
    CompletedIdsMembership(completedChallenges, challenges[i].id);
  }
}
