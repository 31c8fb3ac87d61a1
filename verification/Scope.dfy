/**
 The acceptance gate over a receipt (scripts/firmware_execution/scope.py): the capability matrix of each
 firmware, the review of coverage gaps, and the list of reasons not to accept.
 */
module Scope {
  import opened Images
  import opened Listings

  datatype Feature = Speed | Region | Encryption | Hrl | Unrestricted | OtherFeature(id: nat)

  datatype Name =
    | SpeedStub | RegionStub | Ake | DenyReset | HrlStub | Vid | AuthCell | BdSite | UhdSite
    | Boot | VendorHandler | OtherName(id: nat)

  datatype Outcome = Passed | Failed | OtherOutcome

  /** A stage of a receipt; `settings` are the advertised settings, none when the stage lists none. */
  datatype Stage = Stage(name: Name, status: Outcome, cases: int, gaps: seq<string>, settings: set<int>)

  datatype Setting = Setting(supported: bool)

  datatype Production = BoundedPassed | Partial | Refusal | OtherProduction

  datatype Group = Newer | Older | Classic

  /** The receipt of one input; `facts` are the stages whose address fact is present. */
  datatype Result = Result(sha: nat, production: Production, hasOutput: bool, canonicalSame: bool, outputSame: bool,
                           cliSame: bool, stages: seq<Stage>, nativePassed: bool, nativeStages: seq<Stage>,
                           helpersPassed: bool, installed: bool, features: map<Feature, Setting>, facts: set<Name>,
                           dispatchQualified: bool)

  datatype CapabilityStatus =
    NotAdvertised | MissingStage | CapabilityFailed | Unqualified | BoundedPassWithGaps | BoundedPass

  datatype Reason =
    | CommandFailed | NotFrozen | Refusals | OutputCount | Baseline | CliMismatch | RowStatus | StageFailed
    | Conversion | Native | FeatureSet | CapabilityUnqualified | GapUnreviewed

  const FEATURES: set<Feature> := {Speed, Region, Encryption, Hrl, Unrestricted}

  // ---------------------------------------------------------------- capabilities

  /** The stages that a fact of the firmware can demand for a feature. */
  function FactNames(feature: Feature): set<Name> {
    match feature
    case Speed => {SpeedStub}
    case Region => {RegionStub}
    case Encryption => {Ake, DenyReset}
    case Hrl => {HrlStub}
    case Unrestricted => {Vid, AuthCell, BdSite, UhdSite}
    case OtherFeature(_) => {}
  }

  /** The stage that a feature always demands. */
  function MinimumRole(feature: Feature): set<Name> {
    match feature
    case Speed => {SpeedStub}
    case Region => {RegionStub}
    case Encryption => {Ake}
    case Hrl => {HrlStub}
    case Unrestricted => {Vid}
    case OtherFeature(_) => {}
  }

  function RequiredNames(feature: Feature, facts: set<Name>): set<Name> {
    FactNames(feature) * facts + MinimumRole(feature) + {Boot, VendorHandler}
  }

  /** The stage kept under a name: the last one that has it. */
  function StageNamed(stages: seq<Stage>, name: Name): Option<Stage> {
    if stages == [] then None
    else if stages[|stages| - 1].name == name then Some(stages[|stages| - 1])
    else StageNamed(stages[..|stages| - 1], name)
  }

  /** Every named stage is there, passed, and ran some case. */
  predicate AllPassed(stages: seq<Stage>, names: set<Name>) {
    forall name :: name in names ==>
      var stage := StageNamed(stages, name);
      stage.Some? && stage.value.status == Passed && stage.value.cases != 0
  }

  predicate AnyMissing(feature: Feature, stages: seq<Stage>, names: set<Name>) {
    feature !in FEATURES || exists name :: name in names && StageNamed(stages, name).None?
  }

  predicate AnyFailed(stages: seq<Stage>, names: set<Name>) {
    exists name :: name in names && StageNamed(stages, name).Some? && StageNamed(stages, name).value.status == Failed
  }

  predicate AnyGaps(stages: seq<Stage>, names: set<Name>) {
    exists name :: name in names && StageNamed(stages, name).Some? && StageNamed(stages, name).value.gaps != []
  }

  function StatusOf(feature: Feature, setting: Setting, facts: set<Name>, stages: seq<Stage>): CapabilityStatus {
    var names := RequiredNames(feature, facts);
    if !setting.supported then NotAdvertised
    else if AnyMissing(feature, stages, names) then MissingStage
    else if AnyFailed(stages, names) then CapabilityFailed
    else if !AllPassed(stages, names) then Unqualified
    else if AnyGaps(stages, names) then BoundedPassWithGaps
    else BoundedPass
  }

  lemma AdvertisedIsQualifiedIff(feature: Feature, setting: Setting, facts: set<Name>, stages: seq<Stage>)
    requires setting.supported && feature in FEATURES
    ensures Qualified(StatusOf(feature, setting, facts, stages)) <==> AllPassed(stages, RequiredNames(feature, facts))
  {
    var names := RequiredNames(feature, facts);
    if name :| name in names && StageNamed(stages, name).None? {
      assert !AllPassed(stages, names);
    } else if name :| name in names && StageNamed(stages, name).value.status == Failed {
      assert !AllPassed(stages, names);
    }
  }

  lemma BoundedPassHasNoGaps(feature: Feature, setting: Setting, facts: set<Name>, stages: seq<Stage>)
    requires StatusOf(feature, setting, facts, stages).BoundedPass?
    ensures AllPassed(stages, RequiredNames(feature, facts))
    ensures forall name :: name in RequiredNames(feature, facts) ==> StageNamed(stages, name).value.gaps == []
  {
  }

  /** A capability passes exactly when it is advertised, known, and every demanded stage passed with cases. */
  lemma CapabilityPassesIff(feature: Feature, setting: Setting, facts: set<Name>, stages: seq<Stage>)
    ensures setting.supported && Qualified(StatusOf(feature, setting, facts, stages)) <==>
            setting.supported && feature in FEATURES && AllPassed(stages, RequiredNames(feature, facts))
    ensures StatusOf(feature, setting, facts, stages).BoundedPass? ==>
              forall name :: name in RequiredNames(feature, facts) ==>
                StageNamed(stages, name).Some? && StageNamed(stages, name).value.gaps == []
  {
    if setting.supported && feature in FEATURES {
      AdvertisedIsQualifiedIff(feature, setting, facts, stages);
    }
    if StatusOf(feature, setting, facts, stages).BoundedPass? {
      BoundedPassHasNoGaps(feature, setting, facts, stages);
    }
  }

  // The status in terms of the places of the stages: a name stands for the last stage that has it.

  predicate IsLast(stages: seq<Stage>, name: Name, i: int) {
    0 <= i < |stages| && stages[i].name == name && forall j :: i < j < |stages| ==> stages[j].name != name
  }

  predicate IsMissing(stages: seq<Stage>, name: Name) {
    forall i :: 0 <= i < |stages| ==> stages[i].name != name
  }

  lemma {:induction false} LastIsNamed(stages: seq<Stage>, name: Name, i: int)
    requires IsLast(stages, name, i)
    ensures StageNamed(stages, name) == Some(stages[i])
    decreases stages
  {
    if i < |stages| - 1 {
      LastIsNamed(stages[..|stages| - 1], name, i);
    }
  }

  lemma {:induction false} MissingIsNotNamed(stages: seq<Stage>, name: Name)
    requires IsMissing(stages, name)
    ensures StageNamed(stages, name).None?
    decreases stages
  {
    if stages != [] {
      MissingIsNotNamed(stages[..|stages| - 1], name);
    }
  }

  /** A name has a last stage among the first `n`, or none. */
  lemma {:induction false} FindLast(stages: seq<Stage>, name: Name, n: nat) returns (i: int)
    requires n <= |stages| && forall j :: n <= j < |stages| ==> stages[j].name != name
    ensures if i < 0 then IsMissing(stages, name) else IsLast(stages, name, i)
    decreases n
  {
    if n == 0 {
      i := -1;
    } else if stages[n - 1].name == name {
      i := n - 1;
    } else {
      i := FindLast(stages, name, n - 1);
    }
  }

  /** What is kept under a name, seen from the list of stages. */
  ghost predicate Keeps(stages: seq<Stage>, name: Name, kept: Option<Stage>) {
    if kept.None? then IsMissing(stages, name) else exists i :: IsLast(stages, name, i) && stages[i] == kept.value
  }

  lemma KeepsIff(stages: seq<Stage>, name: Name, kept: Option<Stage>)
    ensures kept == StageNamed(stages, name) <==> Keeps(stages, name, kept)
  {
    var i := FindLast(stages, name, |stages|);
    if i < 0 {
      MissingIsNotNamed(stages, name);
    } else {
      LastIsNamed(stages, name, i);
      forall j | IsLast(stages, name, j) ensures j == i {
      }
    }
  }

  /** The stages that a feature demands: the first of its own always, the others when their fact is present. */
  predicate Demanded(feature: Feature, facts: set<Name>, name: Name) {
    || name == Boot || name == VendorHandler
    || match feature
       case Speed => name == SpeedStub
       case Region => name == RegionStub
       case Encryption => name == Ake || (name == DenyReset && name in facts)
       case Hrl => name == HrlStub
       case Unrestricted => name == Vid || (name in facts && (name == AuthCell || name == BdSite || name == UhdSite))
       case OtherFeature(_) => false
  }

  lemma DemandedIff(feature: Feature, facts: set<Name>, name: Name)
    ensures name in RequiredNames(feature, facts) <==> Demanded(feature, facts, name)
  {
  }

  /** A stage that the feature demands, as it is kept. */
  ghost predicate Counts(feature: Feature, facts: set<Name>, stages: seq<Stage>, i: int) {
    0 <= i < |stages| && Demanded(feature, facts, stages[i].name) && IsLast(stages, stages[i].name, i)
  }

  ghost predicate Complete(feature: Feature, facts: set<Name>, stages: seq<Stage>) {
    !feature.OtherFeature? && forall name :: Demanded(feature, facts, name) ==> !IsMissing(stages, name)
  }

  ghost predicate AnyStage(feature: Feature, facts: set<Name>, stages: seq<Stage>, bad: Stage -> bool) {
    exists i :: Counts(feature, facts, stages, i) && bad(stages[i])
  }

  function HasFailed(): Stage -> bool {
    (stage: Stage) => stage.status == Failed
  }

  function DidNotPass(): Stage -> bool {
    (stage: Stage) => stage.status != Passed || stage.cases == 0
  }

  function HasGaps(): Stage -> bool {
    (stage: Stage) => stage.gaps != []
  }

  /** What each status says of the stages. */
  ghost predicate HasStatus(feature: Feature, setting: Setting, facts: set<Name>, stages: seq<Stage>,
                            status: CapabilityStatus)
  {
    var complete := setting.supported && Complete(feature, facts, stages);
    var failed := AnyStage(feature, facts, stages, HasFailed());
    var unfit := AnyStage(feature, facts, stages, DidNotPass());
    var gaps := AnyStage(feature, facts, stages, HasGaps());
    match status
    case NotAdvertised => !setting.supported
    case MissingStage => setting.supported && !complete
    case CapabilityFailed => complete && failed
    case Unqualified => complete && !failed && unfit
    case BoundedPassWithGaps => complete && !unfit && gaps
    case BoundedPass => complete && !unfit && !gaps
  }

  lemma SomeIff(feature: Feature, facts: set<Name>, stages: seq<Stage>, bad: Stage -> bool)
    ensures AnyStage(feature, facts, stages, bad) <==>
            exists name :: Demanded(feature, facts, name) && StageNamed(stages, name).Some?
                           && bad(StageNamed(stages, name).value)
  {
    if i :| Counts(feature, facts, stages, i) && bad(stages[i]) {
      LastIsNamed(stages, stages[i].name, i);
    }
    if name :| Demanded(feature, facts, name) && StageNamed(stages, name).Some? && bad(StageNamed(stages, name).value) {
      KeepsIff(stages, name, StageNamed(stages, name));
      var i :| IsLast(stages, name, i) && stages[i] == StageNamed(stages, name).value;
      assert Counts(feature, facts, stages, i);
    }
  }

  lemma CompleteIff(feature: Feature, facts: set<Name>, stages: seq<Stage>)
    ensures Complete(feature, facts, stages) <==>
            feature in FEATURES && forall name :: Demanded(feature, facts, name) ==> StageNamed(stages, name).Some?
  {
    forall name ensures IsMissing(stages, name) <==> StageNamed(stages, name).None? {
      KeepsIff(stages, name, StageNamed(stages, name));
      if i :| IsLast(stages, name, i) {
        assert stages[i].name == name;
      }
      if IsMissing(stages, name) {
        MissingIsNotNamed(stages, name);
      }
    }
  }

  lemma MissingTest(feature: Feature, facts: set<Name>, stages: seq<Stage>, names: set<Name>)
    requires forall name :: name in names <==> Demanded(feature, facts, name)
    ensures AnyMissing(feature, stages, names) <==> !Complete(feature, facts, stages)
  {
    CompleteIff(feature, facts, stages);
  }

  lemma FailedTest(feature: Feature, facts: set<Name>, stages: seq<Stage>, names: set<Name>)
    requires forall name :: name in names <==> Demanded(feature, facts, name)
    ensures AnyFailed(stages, names) <==> AnyStage(feature, facts, stages, HasFailed())
  {
    SomeIff(feature, facts, stages, HasFailed());
  }

  lemma PassedTest(feature: Feature, facts: set<Name>, stages: seq<Stage>, names: set<Name>)
    requires forall name :: name in names <==> Demanded(feature, facts, name)
    requires Complete(feature, facts, stages)
    ensures AllPassed(stages, names) <==> !AnyStage(feature, facts, stages, DidNotPass())
  {
    CompleteIff(feature, facts, stages);
    SomeIff(feature, facts, stages, DidNotPass());
  }

  lemma GapTest(feature: Feature, facts: set<Name>, stages: seq<Stage>, names: set<Name>)
    requires forall name :: name in names <==> Demanded(feature, facts, name)
    ensures AnyGaps(stages, names) <==> AnyStage(feature, facts, stages, HasGaps())
  {
    SomeIff(feature, facts, stages, HasGaps());
  }

  lemma FailedIsUnfit(feature: Feature, facts: set<Name>, stages: seq<Stage>)
    requires AnyStage(feature, facts, stages, HasFailed())
    ensures AnyStage(feature, facts, stages, DidNotPass())
  {
    var i :| Counts(feature, facts, stages, i) && HasFailed()(stages[i]);
    assert DidNotPass()(stages[i]);
  }

  /** The cascade of tests gives each capability the status that its stages have. */
  lemma StatusIff(feature: Feature, setting: Setting, facts: set<Name>, stages: seq<Stage>, status: CapabilityStatus)
    ensures StatusOf(feature, setting, facts, stages) == status <==> HasStatus(feature, setting, facts, stages, status)
  {
    var names := RequiredNames(feature, facts);
    forall name ensures name in names <==> Demanded(feature, facts, name) {
      DemandedIff(feature, facts, name);
    }
    MissingTest(feature, facts, stages, names);
    FailedTest(feature, facts, stages, names);
    GapTest(feature, facts, stages, names);
    if Complete(feature, facts, stages) {
      PassedTest(feature, facts, stages, names);
    }
    if AnyStage(feature, facts, stages, HasFailed()) {
      FailedIsUnfit(feature, facts, stages);
    }
  }

  predicate Qualified(status: CapabilityStatus) {
    !status.MissingStage? && !status.Unqualified? && !status.CapabilityFailed?
  }

  // ---------------------------------------------------------------- coverage gaps

  predicate StartsWith(text: string, prefix: string) {
    |prefix| <= |text| && text[..|prefix|] == prefix
  }

  /** The gap is one of the reviewed statements, and what that review relied on holds here. */
  predicate Reviewed(reviewed: set<string>, qualified: bool, stage: Stage, gap: string) {
    && gap in reviewed
    && (StartsWith(gap, "Vendor tests stop") ==> qualified)
    && (StartsWith(gap, "Forced-region contract conflict:") ==> stage.settings == {1, 255})
  }

  datatype Item = Item(stage: Name, gap: string)

  /** The gaps of the first `n` of a stage's gaps that are reviewed, or that are not. */
  function ItemsOf(reviewed: set<string>, qualified: bool, stage: Stage, n: nat, want: bool): seq<Item>
    requires n <= |stage.gaps|
  {
    if n == 0 then []
    else
      ItemsOf(reviewed, qualified, stage, n - 1, want) +
      if Reviewed(reviewed, qualified, stage, stage.gaps[n - 1]) == want
      then [Item(stage.name, stage.gaps[n - 1])]
      else []
  }

  function Items(reviewed: set<string>, qualified: bool, stages: seq<Stage>, n: nat, want: bool): seq<Item>
    requires n <= |stages|
  {
    if n == 0 then []
    else
      Items(reviewed, qualified, stages, n - 1, want) +
      ItemsOf(reviewed, qualified, stages[n - 1], |stages[n - 1].gaps|, want)
  }

  /** Every gap of every stage is reviewed. */
  ghost predicate AllReviewed(reviewed: set<string>, qualified: bool, stages: seq<Stage>, n: nat)
    requires n <= |stages|
  {
    forall i, g :: 0 <= i < n && g in stages[i].gaps ==> Reviewed(reviewed, qualified, stages[i], g)
  }

  lemma {:induction false} StageReviewed(reviewed: set<string>, qualified: bool, stage: Stage, n: nat)
    requires n <= |stage.gaps|
    ensures ItemsOf(reviewed, qualified, stage, n, false) == [] <==>
            forall k :: 0 <= k < n ==> Reviewed(reviewed, qualified, stage, stage.gaps[k])
  {
    if n > 0 {
      StageReviewed(reviewed, qualified, stage, n - 1);
    }
  }

  /** Nothing is left unreviewed exactly when every gap is reviewed. */
  lemma {:induction false} NothingUnreviewedIff(reviewed: set<string>, qualified: bool, stages: seq<Stage>, n: nat)
    requires n <= |stages|
    ensures Items(reviewed, qualified, stages, n, false) == [] <==> AllReviewed(reviewed, qualified, stages, n)
  {
    if n > 0 {
      NothingUnreviewedIff(reviewed, qualified, stages, n - 1);
      StageReviewed(reviewed, qualified, stages[n - 1], |stages[n - 1].gaps|);
    }
  }

  /** Every gap goes to one of the two lists. */
  lemma {:induction false} GapsAreSorted(reviewed: set<string>, qualified: bool, stage: Stage, n: nat)
    requires n <= |stage.gaps|
    ensures |ItemsOf(reviewed, qualified, stage, n, true)| + |ItemsOf(reviewed, qualified, stage, n, false)| == n
  {
    if n > 0 {
      GapsAreSorted(reviewed, qualified, stage, n - 1);
    }
  }

  // The two lists in terms of the places of the gaps: the stage, and the gap in it.

  predicate Before(at: (nat, nat), other: (nat, nat)) {
    at.0 < other.0 || (at.0 == other.0 && at.1 < other.1)
  }

  predicate IsWanted(reviewed: set<string>, qualified: bool, stages: seq<Stage>, want: bool, at: (nat, nat)) {
    && at.0 < |stages| && at.1 < |stages[at.0].gaps|
    && Reviewed(reviewed, qualified, stages[at.0], stages[at.0].gaps[at.1]) == want
  }

  /** The items are the wanted gaps in front of place `end`, each once and in order. */
  ghost predicate IsListing(reviewed: set<string>, qualified: bool, stages: seq<Stage>, want: bool, end: (nat, nat),
                            items: seq<Item>, places: seq<(nat, nat)>)
  {
    && |places| == |items| && (forall j :: 0 < j < |places| ==> Before(places[j - 1], places[j]))
    && (forall at :: at in places <==> IsWanted(reviewed, qualified, stages, want, at) && Before(at, end))
    && forall j :: 0 <= j < |places| ==>
         && places[j].0 < |stages| && places[j].1 < |stages[places[j].0].gaps|
         && items[j] == Item(stages[places[j].0].name, stages[places[j].0].gaps[places[j].1])
  }

  lemma OneMoreGap(reviewed: set<string>, qualified: bool, stages: seq<Stage>, want: bool, i: nat, k: nat,
                   items: seq<Item>, places: seq<(nat, nat)>)
    requires i < |stages| && k < |stages[i].gaps|
    requires IsListing(reviewed, qualified, stages, want, (i, k), items, places)
    ensures if IsWanted(reviewed, qualified, stages, want, (i, k))
            then IsListing(reviewed, qualified, stages, want, (i, k + 1),
                           items + [Item(stages[i].name, stages[i].gaps[k])], places + [(i, k)])
            else IsListing(reviewed, qualified, stages, want, (i, k + 1), items, places)
  {
    assert places != [] ==> places[|places| - 1] in places;
    forall at ensures at in places + [(i, k)] <==> at in places || at == (i, k) {
    }
    forall at ensures Before(at, (i, k + 1)) <==> Before(at, (i, k)) || at == (i, k) {
    }
  }

  lemma NextGap(reviewed: set<string>, qualified: bool, stages: seq<Stage>, want: bool, i: nat, k: nat,
                items: seq<Item>, places: seq<(nat, nat)>, more: seq<Item>)
    returns (more': seq<(nat, nat)>)
    requires i < |stages| && k < |stages[i].gaps|
    requires IsListing(reviewed, qualified, stages, want, (i, k), items, places)
    requires more == if IsWanted(reviewed, qualified, stages, want, (i, k))
                     then items + [Item(stages[i].name, stages[i].gaps[k])] else items
    ensures IsListing(reviewed, qualified, stages, want, (i, k + 1), more, more')
  {
    OneMoreGap(reviewed, qualified, stages, want, i, k, items, places);
    more' := if IsWanted(reviewed, qualified, stages, want, (i, k)) then places + [(i, k)] else places;
  }

  lemma NextStage(reviewed: set<string>, qualified: bool, stages: seq<Stage>, want: bool, i: nat, items: seq<Item>,
                  places: seq<(nat, nat)>)
    requires i < |stages| && IsListing(reviewed, qualified, stages, want, (i, |stages[i].gaps|), items, places)
    ensures IsListing(reviewed, qualified, stages, want, (i + 1, 0), items, places)
  {
    forall at | IsWanted(reviewed, qualified, stages, want, at)
      ensures Before(at, (i + 1, 0)) <==> Before(at, (i, |stages[i].gaps|))
    {
    }
  }

  lemma {:induction false} StageIsListed(reviewed: set<string>, qualified: bool, stages: seq<Stage>, want: bool, i: nat,
                                         k: nat, items: seq<Item>, places: seq<(nat, nat)>)
    returns (more: seq<(nat, nat)>)
    requires i < |stages| && k <= |stages[i].gaps|
    requires IsListing(reviewed, qualified, stages, want, (i, 0), items, places)
    ensures IsListing(reviewed, qualified, stages, want, (i, k),
                      items + ItemsOf(reviewed, qualified, stages[i], k, want), more)
    decreases k
  {
    if k == 0 {
      more := places;
      assert items + [] == items;
    } else {
      var before := items + ItemsOf(reviewed, qualified, stages[i], k - 1, want);
      more := StageIsListed(reviewed, qualified, stages, want, i, k - 1, items, places);
      more := NextGap(reviewed, qualified, stages, want, i, k - 1, before, more,
        items + ItemsOf(reviewed, qualified, stages[i], k, want));
    }
  }

  lemma {:induction false} GapsAreListed(reviewed: set<string>, qualified: bool, stages: seq<Stage>, want: bool, n: nat)
    returns (places: seq<(nat, nat)>)
    requires n <= |stages|
    ensures IsListing(reviewed, qualified, stages, want, (n, 0), Items(reviewed, qualified, stages, n, want), places)
    decreases n
  {
    if n == 0 {
      places := [];
    } else {
      var before := Items(reviewed, qualified, stages, n - 1, want);
      var i := n - 1;
      places := GapsAreListed(reviewed, qualified, stages, want, i);
      places := StageIsListed(reviewed, qualified, stages, want, i, |stages[i].gaps|, before, places);
      NextStage(reviewed, qualified, stages, want, i, Items(reviewed, qualified, stages, n, want), places);
    }
  }

  /** The items are exactly the gaps of a result that are reviewed, or that are not, in their order. */
  ghost predicate ListsGaps(reviewed: set<string>, result: Result, want: bool, items: seq<Item>) {
    var stages := result.stages + result.nativeStages;
    exists places :: IsListing(reviewed, result.dispatchQualified, stages, want, (|stages|, 0), items, places)
  }

  method ReviewGaps(reviewed: set<string>, result: Result) returns (kept: seq<Item>, unreviewed: seq<Item>)
    ensures var stages := result.stages + result.nativeStages;
            && kept == Items(reviewed, result.dispatchQualified, stages, |stages|, true)
            && unreviewed == Items(reviewed, result.dispatchQualified, stages, |stages|, false)
    ensures ListsGaps(reviewed, result, true, kept) && ListsGaps(reviewed, result, false, unreviewed)
  {
    var stages := result.stages + result.nativeStages;
    ghost var keptPlaces := GapsAreListed(reviewed, result.dispatchQualified, stages, true, |stages|);
    ghost var otherPlaces := GapsAreListed(reviewed, result.dispatchQualified, stages, false, |stages|);
    kept, unreviewed := [], [];
    for i := 0 to |stages|
      invariant kept == Items(reviewed, result.dispatchQualified, stages, i, true)
      invariant unreviewed == Items(reviewed, result.dispatchQualified, stages, i, false)
    {
      var stage := stages[i];
      ghost var keptBefore, unreviewedBefore := kept, unreviewed;
      for k := 0 to |stage.gaps|
        invariant kept == keptBefore + ItemsOf(reviewed, result.dispatchQualified, stage, k, true)
        invariant unreviewed == unreviewedBefore + ItemsOf(reviewed, result.dispatchQualified, stage, k, false)
      {
        if Reviewed(reviewed, result.dispatchQualified, stage, stage.gaps[k]) {
          kept := kept + [Item(stage.name, stage.gaps[k])];
        } else {
          unreviewed := unreviewed + [Item(stage.name, stage.gaps[k])];
        }
      }
    }
  }

  // ---------------------------------------------------------------- the matrix

  /** One retained input with its result; the inventory has each input once. */
  datatype Entry = Entry(group: Group, result: Result)

  datatype MatrixRow = MatrixRow(hasOutput: bool, features: set<Feature>, allSupported: bool,
                                 capabilities: map<Feature, CapabilityStatus>, unreviewed: seq<Item>)

  /** What the firmware advertises; nothing is read without an output. */
  function Advertised(result: Result): map<Feature, Setting> {
    if result.hasOutput then result.features else map[]
  }

  /** What the facts demand; nothing is read without an output. */
  function Facts(result: Result): set<Name> {
    if result.hasOutput then result.facts else {}
  }

  function Capabilities(result: Result): map<Feature, CapabilityStatus> {
    map feature | feature in Advertised(result) ::
      StatusOf(feature, Advertised(result)[feature], Facts(result), result.stages)
  }

  predicate AllSupported(settings: map<Feature, Setting>) {
    forall feature :: feature in settings ==> settings[feature].supported
  }

  function Unreviewed(reviewed: set<string>, result: Result): seq<Item> {
    var stages := result.stages + result.nativeStages;
    Items(reviewed, result.dispatchQualified, stages, |stages|, false)
  }

  function MatrixOf(reviewed: set<string>, result: Result): MatrixRow {
    MatrixRow(result.hasOutput, Advertised(result).Keys, AllSupported(Advertised(result)), Capabilities(result),
              Unreviewed(reviewed, result))
  }

  function MatrixOfAll(reviewed: set<string>, entries: seq<Entry>): seq<MatrixRow> {
    seq(|entries|, k requires 0 <= k < |entries| => MatrixOf(reviewed, entries[k].result))
  }

  method Matrix(reviewed: set<string>, entries: seq<Entry>) returns (matrix: seq<MatrixRow>)
    ensures matrix == MatrixOfAll(reviewed, entries)
  {
    matrix := [];
    for n := 0 to |entries|
      invariant |matrix| == n && forall k :: 0 <= k < n ==> matrix[k] == MatrixOf(reviewed, entries[k].result)
    {
      var result := entries[n].result;
      var _, unreviewed := ReviewGaps(reviewed, result);
      matrix := matrix + [MatrixRow(result.hasOutput, Advertised(result).Keys, AllSupported(Advertised(result)),
                                    Capabilities(result), unreviewed)];
    }
  }

  // ---------------------------------------------------------------- the gate

  /** Facts about the run as a whole, with the sizes that the scope fixes: 123 inputs, 41 of them converted. */
  datatype Run = Run(commandPassed: bool, frozen: bool, baseline: bool, reviewed: set<string>,
                     retained: nat, conversions: nat)

  /** How many entries have an output. */
  function Outputs(entries: seq<Entry>): nat {
    |set k: nat | k < |entries| && entries[k].result.hasOutput|
  }

  /** How many entries had to be converted. */
  function Conversions(entries: seq<Entry>): nat {
    |set k: nat | k < |entries| && !entries[k].group.Newer?|
  }

  predicate StagesRan(stages: seq<Stage>) {
    forall i :: 0 <= i < |stages| ==> stages[i].status == Passed && stages[i].cases > 0
  }

  predicate SameAsBaseline(result: Result) {
    result.canonicalSame && result.outputSame
  }

  predicate Produced(result: Result) {
    result.production.BoundedPassed? || result.production.Partial?
  }

  predicate Converted(result: Result) {
    result.helpersPassed && result.installed
  }

  predicate AdvertisesFive(row: MatrixRow) {
    row.features == FEATURES && row.allSupported
  }

  predicate AllQualified(row: MatrixRow) {
    forall feature :: feature in row.capabilities ==> Qualified(row.capabilities[feature])
  }

  /** One entry gives the reason. */
  predicate Objects(reason: Reason, run: Run, entry: Entry, row: MatrixRow) {
    match reason
    case Refusals => entry.result.production.Refusal?
    case Baseline => run.baseline && !SameAsBaseline(entry.result)
    case CliMismatch => entry.result.hasOutput && !entry.result.cliSame
    case RowStatus => !Produced(entry.result)
    case StageFailed => entry.result.hasOutput && !StagesRan(entry.result.stages)
    case Conversion => !entry.group.Newer? && !Converted(entry.result)
    case Native => entry.group.Newer? && !entry.result.nativePassed
    case FeatureSet => row.hasOutput && !AdvertisesFive(row)
    case CapabilityUnqualified => !AllQualified(row)
    case GapUnreviewed => row.unreviewed != []
    case _ => false
  }

  /** The run as a whole gives the reason. */
  predicate Fails(reason: Reason, run: Run, entries: seq<Entry>) {
    match reason
    case CommandFailed => !run.commandPassed
    case NotFrozen => !run.frozen
    case OutputCount => Outputs(entries) != run.retained
    case Conversion => Conversions(entries) != run.conversions
    case _ => false
  }

  predicate Blocks(reason: Reason, run: Run, entries: seq<Entry>, matrix: seq<MatrixRow>)
    requires |matrix| == |entries|
  {
    Fails(reason, run, entries) || exists k :: 0 <= k < |entries| && Objects(reason, run, entries[k], matrix[k])
  }

  const ORDER: seq<Reason> :=
    [CommandFailed, NotFrozen, Refusals, OutputCount, Baseline, CliMismatch, RowStatus, StageFailed, Conversion, Native,
     FeatureSet, CapabilityUnqualified, GapUnreviewed]

  lemma OrderIsComplete(reason: Reason)
    ensures reason in ORDER
  {
    match reason
    case CommandFailed => assert ORDER[0] == reason;
    case NotFrozen => assert ORDER[1] == reason;
    case Refusals => assert ORDER[2] == reason;
    case OutputCount => assert ORDER[3] == reason;
    case Baseline => assert ORDER[4] == reason;
    case CliMismatch => assert ORDER[5] == reason;
    case RowStatus => assert ORDER[6] == reason;
    case StageFailed => assert ORDER[7] == reason;
    case Conversion => assert ORDER[8] == reason;
    case Native => assert ORDER[9] == reason;
    case FeatureSet => assert ORDER[10] == reason;
    case CapabilityUnqualified => assert ORDER[11] == reason;
    case GapUnreviewed => assert ORDER[12] == reason;
  }

  /** Those of the first `n` reasons that hold, in the order they are tried. */
  function Tried(run: Run, entries: seq<Entry>, matrix: seq<MatrixRow>, n: nat): seq<Reason>
    requires |matrix| == |entries| && n <= |ORDER|
  {
    if n == 0 then []
    else Noted(Tried(run, entries, matrix, n - 1), Blocks(ORDER[n - 1], run, entries, matrix), ORDER[n - 1])
  }

  function Noted(reasons: seq<Reason>, holds: bool, reason: Reason): seq<Reason> {
    if holds then reasons + [reason] else reasons
  }

  lemma {:induction false} TriedHolds(run: Run, entries: seq<Entry>, matrix: seq<MatrixRow>, n: nat, reason: Reason)
    requires |matrix| == |entries| && n <= |ORDER|
    ensures reason in Tried(run, entries, matrix, n) <==> reason in ORDER[..n] && Blocks(reason, run, entries, matrix)
  {
    if n > 0 {
      TriedHolds(run, entries, matrix, n - 1, reason);
      assert ORDER[..n] == ORDER[..n - 1] + [ORDER[n - 1]];
    }
  }

  /** The list names exactly the reasons that hold. */
  lemma ReasonsHold(run: Run, entries: seq<Entry>, matrix: seq<MatrixRow>)
    requires |matrix| == |entries|
    ensures forall reason :: reason in Tried(run, entries, matrix, |ORDER|) <==> Blocks(reason, run, entries, matrix)
  {
    assert ORDER[..|ORDER|] == ORDER;
    forall reason ensures reason in Tried(run, entries, matrix, |ORDER|) <==> Blocks(reason, run, entries, matrix) {
      TriedHolds(run, entries, matrix, |ORDER|, reason);
      OrderIsComplete(reason);
    }
  }

  /** One test: the reason is noted when it holds. */
  method Note(run: Run, entries: seq<Entry>, ghost matrix: seq<MatrixRow>, ghost n: nat, reasons: seq<Reason>,
              holds: bool, reason: Reason)
    returns (noted: seq<Reason>)
    requires |matrix| == |entries| && n < |ORDER| && reason == ORDER[n]
    requires reasons == Tried(run, entries, matrix, n) && holds == Blocks(reason, run, entries, matrix)
    ensures noted == Tried(run, entries, matrix, n + 1)
  {
    noted := if holds then reasons + [reason] else reasons;
  }

  /** Tests on the run as a whole. */
  method RunReasons(run: Run, entries: seq<Entry>, ghost matrix: seq<MatrixRow>, ghost start: nat, before: seq<Reason>)
    returns (reasons: seq<Reason>)
    requires |matrix| == |entries| && start == 0 && before == Tried(run, entries, matrix, start)
    ensures reasons == Tried(run, entries, matrix, start + 2)
  {
    ghost var i := start;
    var holds := !run.commandPassed;
    reasons := Note(run, entries, matrix, i, before, holds, CommandFailed);
    i := i + 1;
    holds := !run.frozen;
    reasons := Note(run, entries, matrix, i, reasons, holds, NotFrozen);
  }

  /** Tests on the number of outputs. */
  method OutputReasons(run: Run, entries: seq<Entry>, ghost matrix: seq<MatrixRow>, ghost start: nat,
                       before: seq<Reason>)
    returns (reasons: seq<Reason>)
    requires |matrix| == |entries| && start == 2 && before == Tried(run, entries, matrix, start)
    ensures reasons == Tried(run, entries, matrix, start + 2)
  {
    var n := |entries|;
    ghost var i := start;
    var holds := exists k :: 0 <= k < n && entries[k].result.production.Refusal?;
    reasons := Note(run, entries, matrix, i, before, holds, Refusals);
    i := i + 1;
    holds := Outputs(entries) != run.retained;
    reasons := Note(run, entries, matrix, i, reasons, holds, OutputCount);
  }

  /** Tests on what the rows were compared with. */
  method ComparisonReasons(run: Run, entries: seq<Entry>, ghost matrix: seq<MatrixRow>, ghost start: nat,
                           before: seq<Reason>)
    returns (reasons: seq<Reason>)
    requires |matrix| == |entries| && start == 4 && before == Tried(run, entries, matrix, start)
    ensures reasons == Tried(run, entries, matrix, start + 2)
  {
    var n := |entries|;
    ghost var i := start;
    var holds := run.baseline && exists k :: 0 <= k < n && !SameAsBaseline(entries[k].result);
    reasons := Note(run, entries, matrix, i, before, holds, Baseline);
    i := i + 1;
    holds := exists k :: 0 <= k < n && entries[k].result.hasOutput && !entries[k].result.cliSame;
    reasons := Note(run, entries, matrix, i, reasons, holds, CliMismatch);
  }

  /** Tests on the status of the rows and of their stages. */
  method StatusReasons(run: Run, entries: seq<Entry>, ghost matrix: seq<MatrixRow>, ghost start: nat,
                       before: seq<Reason>)
    returns (reasons: seq<Reason>)
    requires |matrix| == |entries| && start == 6 && before == Tried(run, entries, matrix, start)
    ensures reasons == Tried(run, entries, matrix, start + 2)
  {
    var n := |entries|;
    ghost var i := start;
    var holds := exists k :: 0 <= k < n && !Produced(entries[k].result);
    reasons := Note(run, entries, matrix, i, before, holds, RowStatus);
    i := i + 1;
    holds := exists k :: 0 <= k < n && entries[k].result.hasOutput && !StagesRan(entries[k].result.stages);
    reasons := Note(run, entries, matrix, i, reasons, holds, StageFailed);
  }

  /** Tests on conversions and native roles. */
  method GroupReasons(run: Run, entries: seq<Entry>, ghost matrix: seq<MatrixRow>, ghost start: nat,
                      before: seq<Reason>)
    returns (reasons: seq<Reason>)
    requires |matrix| == |entries| && start == 8 && before == Tried(run, entries, matrix, start)
    ensures reasons == Tried(run, entries, matrix, start + 2)
  {
    var n := |entries|;
    ghost var i := start;
    var holds := Conversions(entries) != run.conversions
             || exists k :: 0 <= k < n && !entries[k].group.Newer? && !Converted(entries[k].result);
    reasons := Note(run, entries, matrix, i, before, holds, Conversion);
    i := i + 1;
    holds := exists k :: 0 <= k < n && entries[k].group.Newer? && !entries[k].result.nativePassed;
    reasons := Note(run, entries, matrix, i, reasons, holds, Native);
  }

  /** Tests on the matrix. */
  method MatrixReasons(run: Run, entries: seq<Entry>, matrix: seq<MatrixRow>, ghost start: nat, before: seq<Reason>)
    returns (reasons: seq<Reason>)
    requires |matrix| == |entries| && start == 10 && before == Tried(run, entries, matrix, start)
    ensures reasons == Tried(run, entries, matrix, start + 3)
  {
    var n := |matrix|;
    ghost var i := start;
    var holds := exists k :: 0 <= k < n && matrix[k].hasOutput && !AdvertisesFive(matrix[k]);
    reasons := Note(run, entries, matrix, i, before, holds, FeatureSet);
    i := i + 1;
    holds := exists k :: 0 <= k < n && !AllQualified(matrix[k]);
    reasons := Note(run, entries, matrix, i, reasons, holds, CapabilityUnqualified);
    i := i + 1;
    holds := exists k :: 0 <= k < n && matrix[k].unreviewed != [];
    reasons := Note(run, entries, matrix, i, reasons, holds, GapUnreviewed);
  }

  // The reasons in terms of the run and its entries alone.

  /** Position in the list. */
  function Rank(reason: Reason): nat {
    match reason
    case CommandFailed => 0 case NotFrozen => 1 case Refusals => 2 case OutputCount => 3 case Baseline => 4
    case CliMismatch => 5 case RowStatus => 6 case StageFailed => 7 case Conversion => 8 case Native => 9
    case FeatureSet => 10 case CapabilityUnqualified => 11 case GapUnreviewed => 12
  }

  /** The entry is at fault. */
  ghost predicate Shows(reason: Reason, run: Run, entry: Entry) {
    var r := entry.result;
    match reason
    case Refusals => r.production == Refusal
    case Baseline => run.baseline && !(r.canonicalSame && r.outputSame)
    case CliMismatch => r.hasOutput && !r.cliSame
    case RowStatus => r.production != BoundedPassed && r.production != Partial
    case StageFailed => r.hasOutput && exists stage :: stage in r.stages && (stage.status != Passed || stage.cases <= 0)
    case Conversion => entry.group != Newer && !(r.helpersPassed && r.installed)
    case Native => entry.group == Newer && !r.nativePassed
    case FeatureSet =>
      r.hasOutput && (r.features.Keys != {Speed, Region, Encryption, Hrl, Unrestricted}
                      || exists feature :: feature in r.features && !r.features[feature].supported)
    case CapabilityUnqualified => r.hasOutput && exists feature :: feature in r.features && Unfit(r, feature)
    case GapUnreviewed =>
      exists i, gap :: 0 <= i < |r.stages + r.nativeStages| && gap in (r.stages + r.nativeStages)[i].gaps
                       && !Reviewed(run.reviewed, r.dispatchQualified, (r.stages + r.nativeStages)[i], gap)
    case _ => false
  }

  /** The feature is advertised, but a stage of it is missing or did not pass on some case. */
  ghost predicate Unfit(r: Result, feature: Feature)
    requires feature in r.features
  {
    r.features[feature].supported &&
    (!Complete(feature, r.facts, r.stages) || AnyStage(feature, r.facts, r.stages, DidNotPass()))
  }

  /** So many entries satisfy the test. */
  ghost predicate Counted(entries: seq<Entry>, test: Entry -> bool, n: nat) {
    exists places :: Selects(|entries|, Passing(entries, test), places) && |places| == n
  }

  ghost function Passing(entries: seq<Entry>, test: Entry -> bool): nat -> bool {
    (k: nat) => k < |entries| && test(entries[k])
  }

  /** What each reason says. */
  ghost predicate Warranted(reason: Reason, run: Run, entries: seq<Entry>) {
    || (exists k :: 0 <= k < |entries| && Shows(reason, run, entries[k]))
    || match reason
       case CommandFailed => !run.commandPassed
       case NotFrozen => !run.frozen
       case OutputCount => !Counted(entries, HasOutput(), run.retained)
       case Conversion => !Counted(entries, IsConverted(), run.conversions)
       case _ => false
  }

  function HasOutput(): Entry -> bool {
    (entry: Entry) => entry.result.hasOutput
  }

  function IsConverted(): Entry -> bool {
    (entry: Entry) => entry.group != Newer
  }

  lemma CountedIff(entries: seq<Entry>, test: Entry -> bool, n: nat, s: set<nat>)
    requires forall k: nat :: k in s <==> Passing(entries, test)(k)
    ensures Counted(entries, test, n) <==> |s| == n
  {
    var places := SelectExists(|entries|, Passing(entries, test));
    IncreasingSize(places, s);
    forall others | Selects(|entries|, Passing(entries, test), others) ensures others == places {
      SelectsIsUnique(|entries|, Passing(entries, test), others, places);
    }
  }

  lemma OutputsCounted(entries: seq<Entry>, n: nat)
    ensures Counted(entries, HasOutput(), n) <==> Outputs(entries) == n
  {
    CountedIff(entries, HasOutput(), n, set k: nat | k < |entries| && entries[k].result.hasOutput);
  }

  lemma ConversionsCounted(entries: seq<Entry>, n: nat)
    ensures Counted(entries, IsConverted(), n) <==> Conversions(entries) == n
  {
    CountedIff(entries, IsConverted(), n, set k: nat | k < |entries| && !entries[k].group.Newer?);
  }

  lemma StagesRanIff(stages: seq<Stage>)
    ensures StagesRan(stages) <==> !exists stage :: stage in stages && (stage.status != Passed || stage.cases <= 0)
  {
    if StagesRan(stages) {
      forall stage | stage in stages ensures stage.status == Passed && stage.cases > 0 {
      }
    }
    if i :| 0 <= i < |stages| && !(stages[i].status == Passed && stages[i].cases > 0) {
      assert stages[i] in stages;
    }
  }

  lemma AllQualifiedIff(run: Run, r: Result)
    ensures !AllQualified(MatrixOf(run.reviewed, r)) <==>
            r.hasOutput && exists feature :: feature in r.features && Unfit(r, feature)
  {
    var row := MatrixOf(run.reviewed, r);
    forall feature | feature in Advertised(r) ensures Qualified(row.capabilities[feature]) <==> !Unfit(r, feature) {
      StatusIff(feature, r.features[feature], r.facts, r.stages, row.capabilities[feature]);
      if AnyStage(feature, r.facts, r.stages, HasFailed()) {
        FailedIsUnfit(feature, r.facts, r.stages);
      }
    }
  }

  lemma UnreviewedIff(run: Run, r: Result)
    ensures Unreviewed(run.reviewed, r) != [] <==>
            exists i, gap :: 0 <= i < |r.stages + r.nativeStages| && gap in (r.stages + r.nativeStages)[i].gaps
                             && !Reviewed(run.reviewed, r.dispatchQualified, (r.stages + r.nativeStages)[i], gap)
  {
    var stages := r.stages + r.nativeStages;
    NothingUnreviewedIff(run.reviewed, r.dispatchQualified, stages, |stages|);
  }

  lemma ShowsIff(reason: Reason, run: Run, entry: Entry)
    ensures Objects(reason, run, entry, MatrixOf(run.reviewed, entry.result)) <==> Shows(reason, run, entry)
  {
    match reason
    case StageFailed => StagesRanIff(entry.result.stages);
    case CapabilityUnqualified => AllQualifiedIff(run, entry.result);
    case GapUnreviewed => UnreviewedIff(run, entry.result);
    case _ =>
  }

  lemma WarrantedIff(reason: Reason, run: Run, entries: seq<Entry>)
    ensures Blocks(reason, run, entries, MatrixOfAll(run.reviewed, entries)) <==> Warranted(reason, run, entries)
  {
    OutputsCounted(entries, run.retained);
    ConversionsCounted(entries, run.conversions);
    var matrix := MatrixOfAll(run.reviewed, entries);
    forall k | 0 <= k < |entries|
      ensures Objects(reason, run, entries[k], matrix[k]) <==> Shows(reason, run, entries[k])
    {
      ShowsIff(reason, run, entries[k]);
    }
  }

  lemma {:induction false} TriedIsRanked(run: Run, entries: seq<Entry>, matrix: seq<MatrixRow>, n: nat)
    requires |matrix| == |entries| && n <= |ORDER|
    ensures IsRanked(Tried(run, entries, matrix, n))
    ensures forall reason :: reason in Tried(run, entries, matrix, n) ==> Rank(reason) < n
  {
    if n > 0 {
      TriedIsRanked(run, entries, matrix, n - 1);
      RankOfOrder(n - 1);
    }
  }

  lemma RankOfOrder(n: nat)
    requires n < |ORDER|
    ensures Rank(ORDER[n]) == n
  {
  }

  predicate IsRanked(reasons: seq<Reason>) {
    forall i, j :: 0 <= i < j < |reasons| ==> Rank(reasons[i]) < Rank(reasons[j])
  }

  lemma ReasonsAreWarranted(run: Run, entries: seq<Entry>)
    ensures var reasons := Tried(run, entries, MatrixOfAll(run.reviewed, entries), |ORDER|);
      IsRanked(reasons) && forall reason :: reason in reasons <==> Warranted(reason, run, entries)
  {
    var matrix := MatrixOfAll(run.reviewed, entries);
    ReasonsHold(run, entries, matrix);
    TriedIsRanked(run, entries, matrix, |ORDER|);
    forall reason ensures Blocks(reason, run, entries, matrix) <==> Warranted(reason, run, entries) {
      WarrantedIff(reason, run, entries);
    }
  }

  /** The reasons not to accept, in the order they are tried. */
  method Reasons(run: Run, entries: seq<Entry>) returns (reasons: seq<Reason>)
    ensures reasons == Tried(run, entries, MatrixOfAll(run.reviewed, entries), |ORDER|)
    ensures IsRanked(reasons) && forall reason :: reason in reasons <==> Warranted(reason, run, entries)
  {
    ghost var rows, i: nat := MatrixOfAll(run.reviewed, entries), 0;
    ReasonsAreWarranted(run, entries);
    reasons := RunReasons(run, entries, rows, i, []);
    i := i + 2;
    reasons := OutputReasons(run, entries, rows, i, reasons);
    i := i + 2;
    reasons := ComparisonReasons(run, entries, rows, i, reasons);
    i := i + 2;
    reasons := StatusReasons(run, entries, rows, i, reasons);
    i := i + 2;
    reasons := GroupReasons(run, entries, rows, i, reasons);
    i := i + 2;
    var matrix := Matrix(run.reviewed, entries);
    reasons := MatrixReasons(run, entries, matrix, i, reasons);
  }

  // ---------------------------------------------------------------- what acceptance means

  /** Everything that acceptance promises about one retained input. */
  ghost predicate Accepted(run: Run, entry: Entry) {
    var r := entry.result;
    && r.hasOutput && r.cliSame && (run.baseline ==> SameAsBaseline(r))
    && Produced(r) && StagesRan(r.stages)
    && (if entry.group.Newer? then r.nativePassed else Converted(r))
    && FeaturesPass(r)
    && GapsReviewed(run.reviewed, r)
  }

  /** Every gap of every stage, native ones included, is reviewed. */
  ghost predicate GapsReviewed(reviewed: set<string>, r: Result) {
    AllReviewed(reviewed, r.dispatchQualified, r.stages + r.nativeStages, |r.stages + r.nativeStages|)
  }

  /** Exactly the five features, each supported, each with all its stages passed on some case. */
  ghost predicate FeaturesPass(r: Result) {
    && r.features.Keys == FEATURES
    && forall feature :: feature in FEATURES ==>
         r.features[feature].supported && AllPassed(r.stages, RequiredNames(feature, r.facts))
  }

  lemma FeaturesPassIff(reviewed: set<string>, r: Result)
    requires r.hasOutput
    ensures FeaturesPass(r) <==> AdvertisesFive(MatrixOf(reviewed, r)) && AllQualified(MatrixOf(reviewed, r))
  {
    var row := MatrixOf(reviewed, r);
    forall feature | feature in r.features
      ensures r.features[feature].supported && Qualified(row.capabilities[feature]) <==>
              r.features[feature].supported && feature in FEATURES &&
              AllPassed(r.stages, RequiredNames(feature, r.facts))
    {
      CapabilityPassesIff(feature, r.features[feature], r.facts, r.stages);
    }
  }

  ghost predicate Unobjected(run: Run, entry: Entry, row: MatrixRow) {
    forall reason :: !Objects(reason, run, entry, row)
  }

  /** The matrix row says what it should about the entry. */
  ghost predicate Describes(run: Run, r: Result, row: MatrixRow) {
    && row.hasOutput == r.hasOutput
    && (FeaturesPass(r) <==> AdvertisesFive(row) && AllQualified(row))
    && (GapsReviewed(run.reviewed, r) <==> row.unreviewed == [])
  }

  lemma UnobjectedIsAccepted(run: Run, entry: Entry, row: MatrixRow)
    requires entry.result.hasOutput && Describes(run, entry.result, row) && Unobjected(run, entry, row)
    ensures Accepted(run, entry)
  {
    assert !Objects(Baseline, run, entry, row) && !Objects(CliMismatch, run, entry, row);
    assert !Objects(RowStatus, run, entry, row) && !Objects(StageFailed, run, entry, row);
    assert !Objects(Conversion, run, entry, row) && !Objects(Native, run, entry, row);
    assert !Objects(FeatureSet, run, entry, row) && !Objects(CapabilityUnqualified, run, entry, row);
    assert !Objects(GapUnreviewed, run, entry, row);
  }

  lemma AcceptedIsUnobjected(run: Run, entry: Entry, row: MatrixRow)
    requires Describes(run, entry.result, row) && Accepted(run, entry)
    ensures Unobjected(run, entry, row)
  {
  }

  lemma MatrixDescribes(run: Run, r: Result)
    requires r.hasOutput
    ensures Describes(run, r, MatrixOf(run.reviewed, r))
  {
    FeaturesPassIff(run.reviewed, r);
    NothingUnreviewedIff(run.reviewed, r.dispatchQualified, r.stages + r.nativeStages, |r.stages + r.nativeStages|);
  }

  lemma SameSize<T>(part: set<T>, whole: set<T>)
    requires part <= whole && |part| == |whole|
    ensures part == whole
  {
    assert whole == part + (whole - part);
  }

  /** As many outputs as entries means that every entry has one. */
  lemma OutputsIff(entries: seq<Entry>)
    ensures Outputs(entries) == |entries| <==> forall k :: 0 <= k < |entries| ==> entries[k].result.hasOutput
  {
    var counted := set k: nat | k < |entries| && entries[k].result.hasOutput;
    assert counted <= Points(0, |entries|);
    if |counted| == |entries| {
      SameSize(counted, Points(0, |entries|));
      forall k | 0 <= k < |entries| ensures entries[k].result.hasOutput {
        assert k in Points(0, |entries|) && k in counted;
      }
    }
    if forall k :: 0 <= k < |entries| ==> entries[k].result.hasOutput {
      assert counted == Points(0, |entries|);
    }
  }

  lemma NoneInEmpty<T>(s: seq<T>)
    ensures s == [] <==> forall x :: x !in s
  {
    if s != [] {
      assert s[0] in s;
    }
  }

  /**
   The gate is fail-closed and gives no spurious reason: on the retained scope the list is empty exactly
   when the run passed unchanged and every single input is accepted.
   */
  lemma NoReasonIff(run: Run, entries: seq<Entry>)
    requires |entries| == run.retained && Conversions(entries) == run.conversions
    ensures Tried(run, entries, MatrixOfAll(run.reviewed, entries), |ORDER|) == [] <==>
            run.commandPassed && run.frozen && forall k :: 0 <= k < |entries| ==> Accepted(run, entries[k])
  {
    var matrix := MatrixOfAll(run.reviewed, entries);
    ReasonsHold(run, entries, matrix);
    NoneInEmpty(Tried(run, entries, matrix, |ORDER|));
    OutputsIff(entries);
    if forall reason :: !Blocks(reason, run, entries, MatrixOfAll(run.reviewed, entries)) {
      UnblockedIsAccepted(run, entries);
    }
    if run.commandPassed && run.frozen && forall k :: 0 <= k < |entries| ==> Accepted(run, entries[k]) {
      AcceptedIsUnblocked(run, entries);
    }
  }

  lemma UnblockedIsAccepted(run: Run, entries: seq<Entry>)
    requires |entries| == run.retained
    requires forall reason :: !Blocks(reason, run, entries, MatrixOfAll(run.reviewed, entries))
    ensures run.commandPassed && run.frozen && forall k :: 0 <= k < |entries| ==> Accepted(run, entries[k])
  {
    var matrix := MatrixOfAll(run.reviewed, entries);
    OutputsIff(entries);
    assert !Blocks(CommandFailed, run, entries, matrix) && !Blocks(NotFrozen, run, entries, matrix);
    assert !Blocks(OutputCount, run, entries, matrix);
    forall k | 0 <= k < |entries| ensures Accepted(run, entries[k]) {
      forall reason ensures !Objects(reason, run, entries[k], matrix[k]) {
        assert !Blocks(reason, run, entries, matrix);
      }
      MatrixDescribes(run, entries[k].result);
      UnobjectedIsAccepted(run, entries[k], matrix[k]);
    }
  }

  lemma AcceptedIsUnblocked(run: Run, entries: seq<Entry>)
    requires |entries| == run.retained && Conversions(entries) == run.conversions
    requires run.commandPassed && run.frozen && forall k :: 0 <= k < |entries| ==> Accepted(run, entries[k])
    ensures forall reason :: !Blocks(reason, run, entries, MatrixOfAll(run.reviewed, entries))
  {
    var matrix := MatrixOfAll(run.reviewed, entries);
    OutputsIff(entries);
    forall k | 0 <= k < |entries| ensures Unobjected(run, entries[k], matrix[k]) {
      MatrixDescribes(run, entries[k].result);
      AcceptedIsUnobjected(run, entries[k], matrix[k]);
    }
    forall reason ensures !Blocks(reason, run, entries, matrix) {
      assert !Fails(reason, run, entries);
    }
  }
}
