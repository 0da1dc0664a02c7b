/**
 * The trails page (`TrailsComponent`): it loads every trail of every place,
 * tagged with the place's name, and shows how many there are and how many
 * have the difficulties "Fácil" and "Moderado".
 */
module TrailsView {
  import opened Models
  import NatureApi

  // ---------------------------------------------------------------------
  // getDifficultyCount

  /** `trails.filter(trail => trail.difficulty === difficulty)`. */
  function TrailsWith(trails: seq<TaggedTrail>, difficulty: string): seq<TaggedTrail>
  {
    if trails == [] then []
    else
      var head := if trails[0].trail.difficulty == difficulty then [trails[0]] else [];
      head + TrailsWith(trails[1..], difficulty)
  }

  /** `getDifficultyCount(difficulty)` over the given trails. */
  function DifficultyCount(trails: seq<TaggedTrail>, difficulty: string): nat
  {
    |TrailsWith(trails, difficulty)|
  }

  /**
   * The count is the number of trails whose difficulty is exactly
   * `difficulty` (the comparison is `===`, so case matters): the
   * multiplicity of `difficulty` among the trails' difficulties.
   */
  lemma {:induction false} DifficultyCountMultiset(trails: seq<TaggedTrail>, difficulty: string)
    ensures DifficultyCount(trails, difficulty) == multiset(NatureApi.DifficultiesOf(trails))[difficulty]
  {
    if trails != [] {
      DifficultyCountMultiset(trails[1..], difficulty);
      var xs := NatureApi.DifficultiesOf(trails);
      assert xs == [trails[0].trail.difficulty] + NatureApi.DifficultiesOf(trails[1..]);
    }
  }

  /** The count is zero exactly when no trail has that difficulty. */
  lemma DifficultyCountZero(trails: seq<TaggedTrail>, difficulty: string)
    ensures DifficultyCount(trails, difficulty) == 0 <==>
      forall i :: 0 <= i < |trails| ==> trails[i].trail.difficulty != difficulty
  {
    DifficultyCountMultiset(trails, difficulty);
    var xs := NatureApi.DifficultiesOf(trails);
    if exists i :: 0 <= i < |trails| && trails[i].trail.difficulty == difficulty {
      var i :| 0 <= i < |trails| && trails[i].trail.difficulty == difficulty;
      assert xs[i] == difficulty;
      assert difficulty in multiset(xs);
    }
  }

  /** No more trails than there are, and none at all when there are no trails. */
  lemma {:induction false} DifficultyCountBound(trails: seq<TaggedTrail>, difficulty: string)
    ensures DifficultyCount(trails, difficulty) <= |trails|
    ensures trails == [] ==> DifficultyCount(trails, difficulty) == 0
  {
    if trails != [] {
      DifficultyCountBound(trails[1..], difficulty);
    }
  }

  /** Two different difficulties count disjoint sets of trails. */
  lemma {:induction false} DifficultyCountDisjoint(trails: seq<TaggedTrail>, a: string, b: string)
    requires a != b
    ensures DifficultyCount(trails, a) + DifficultyCount(trails, b) <= |trails|
  {
    if trails != [] {
      DifficultyCountDisjoint(trails[1..], a, b);
    }
  }

  /** The "Fáciles" and "Moderados" figures of the stats bar together never exceed the total. */
  lemma EasyAndModerateBound(trails: seq<TaggedTrail>)
    ensures DifficultyCount(trails, "F\U{E1}cil") + DifficultyCount(trails, "Moderado") <= |trails|
  {
    assert "F\U{E1}cil"[0] != "Moderado"[0];
    DifficultyCountDisjoint(trails, "F\U{E1}cil", "Moderado");
  }

  // ---------------------------------------------------------------------
  // The component

  /** What the page shows: the spinner, the trails with their stats bar, or the empty state. */
  datatype Panel = LoadingPanel | TrailsPanel | EmptyPanel

  class TrailsComponent {
    var allTrails: seq<TaggedTrail>
    var loading: bool
    /** The number of `getAllTrails` requests issued. */
    var requests: nat

    constructor ()
      ensures allTrails == [] && !loading && requests == 0
    {
      allTrails := [];
      loading := false;
      requests := 0;
    }

    function View(): (p: Panel)
      reads this
      ensures p.LoadingPanel? <==> loading
      ensures p.TrailsPanel? <==> (!loading && |allTrails| > 0)
      ensures p.EmptyPanel? <==> (!loading && allTrails == [])
    {
      if loading then LoadingPanel else if |allTrails| > 0 then TrailsPanel else EmptyPanel
    }

    /** `getDifficultyCount(difficulty)` over the loaded trails. */
    function GetDifficultyCount(difficulty: string): (n: nat)
      reads this
      ensures n <= |allTrails|
      ensures n == multiset(NatureApi.DifficultiesOf(allTrails))[difficulty]
    {
      DifficultyCountBound(allTrails, difficulty);
      DifficultyCountMultiset(allTrails, difficulty);
      DifficultyCount(allTrails, difficulty)
    }

    /** `loadAllTrails`: raise the loading flag and issue the request, keeping the trails shown so far. */
    method LoadAllTrails()
      modifies this
      ensures loading && requests == old(requests) + 1 && allTrails == old(allTrails)
      ensures View() == LoadingPanel
    {
      loading := true;
      requests := requests + 1;
    }

    /** The `next` callback: the response replaces the trails. */
    method OnTrailsLoaded(trails: seq<TaggedTrail>)
      modifies this
      ensures allTrails == trails && !loading && requests == old(requests)
    {
      allTrails := trails;
      loading := false;
    }

    /** The `error` callback: only the loading flag drops; the trails stay as they were. */
    method OnTrailsError()
      modifies this
      ensures allTrails == old(allTrails) && !loading && requests == old(requests)
    {
      loading := false;
    }
  }
}
