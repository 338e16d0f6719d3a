/** Trails: an immutable tree in which a trail is empty, a mountain in series
    before the rest of the trail, or a split into a top and a bottom branch
    that join again before a following trail. Every edit builds a new trail;
    `follow_path` walks one route through it, letting a walker choose the
    branch at every split. */
module Trails {
  import opened Results
  import opened Mountains

  datatype Trail = Trail(store: TrailStore)

  /** `TrailStore`: a split, a series, or nothing (`None`). */
  datatype TrailStore =
    | NoStore
    | TrailSeries(mountain: Mountain, following: Trail)
    | TrailSplit(top: Trail, bottom: Trail, following: Trail)

  /** What the walker's `select_branch` answers at a split; any answer other
      than the top or the bottom branch ends the walk. */
  datatype Decision = Top | Bottom | Stop

  /** `TrailSplit.remove_branch`: drop the split with both its branches. */
  function RemoveBranch(s: TrailStore): (r: TrailStore)
    requires s.TrailSplit?
    ensures Size(r) + Size(s.top.store) + Size(s.bottom.store) + 1 == Size(s)
  {
    s.following.store
  }

  /** `TrailSeries.remove_mountain`: drop the first mountain. */
  function RemoveMountain(s: TrailStore): (r: Trail)
    requires s.TrailSeries?
    ensures Size(r.store) + 1 == Size(s)
    ensures SeriesMountains(s).Some? ==> SeriesMountains(r.store) == Some(SeriesMountains(s).value[1..])
  {
    s.following
  }

  /** `TrailSeries.add_mountain_before`: a new mountain in series before
      this one. */
  function SeriesAddMountainBefore(s: TrailStore, m: Mountain): (r: TrailStore)
    requires s.TrailSeries?
    ensures Size(r) == Size(s) + 1
    ensures SeriesMountains(s).Some? ==> SeriesMountains(r) == Some([m] + SeriesMountains(s).value)
  {
    TrailSeries(m, Trail(s))
  }

  /** `TrailSeries.add_empty_branch_before`: an empty split whose following
      trail is this series. */
  function SeriesAddEmptyBranchBefore(s: TrailStore): (r: TrailStore)
    requires s.TrailSeries?
    ensures Size(r) == Size(s) + 3
    ensures SeriesMountains(r).None?
  {
    TrailSplit(Trail(NoStore), Trail(NoStore), Trail(s))
  }

  /** `TrailSeries.add_mountain_after`: a new mountain between this one and
      the following trail. */
  function AddMountainAfter(s: TrailStore, m: Mountain): (r: TrailStore)
    requires s.TrailSeries?
    ensures Size(r) == Size(s) + 1
    ensures SeriesMountains(s).Some? ==>
      SeriesMountains(r) == Some([s.mountain, m] + SeriesMountains(s).value[1..])
  {
    var rest := TrailSeries(m, s.following);
    assert SeriesMountains(s).Some? ==>
      SeriesMountains(rest) == Some([m] + SeriesMountains(s).value[1..]);
    assert forall ms: seq<Mountain> :: [s.mountain] + ([m] + ms) == [s.mountain, m] + ms;
    TrailSeries(s.mountain, Trail(rest))
  }

  /** `TrailSeries.add_empty_branch_after`: an empty split between this
      mountain and the following trail. */
  function AddEmptyBranchAfter(s: TrailStore): (r: TrailStore)
    requires s.TrailSeries?
    ensures Size(r) == Size(s) + 3
    ensures SeriesMountains(r).None?
  {
    var split := TrailSplit(Trail(NoStore), Trail(NoStore), s.following);
    assert Size(split) == Size(s.following.store) + 3;
    TrailSeries(s.mountain, Trail(split))
  }

  /** `Trail.add_mountain_before`: a new mountain before the whole trail. */
  function AddMountainBefore(t: Trail, m: Mountain): (r: Trail)
    ensures Size(r.store) == Size(t.store) + 1
    ensures SeriesMountains(t.store).Some? ==> SeriesMountains(r.store) == Some([m] + SeriesMountains(t.store).value)
  {
    Trail(TrailSeries(m, t))
  }

  /** `Trail.add_empty_branch_before`: an empty split before the whole trail. */
  function AddEmptyBranchBefore(t: Trail): (r: Trail)
    ensures Size(r.store) == Size(t.store) + 3
    ensures SeriesMountains(r.store).None?
  {
    Trail(TrailSplit(Trail(NoStore), Trail(NoStore), t))
  }

  /** Removing the mountain just added in front gives back the trail behind it. */
  lemma RemoveAddedMountain(s: TrailStore, m: Mountain)
    requires s.TrailSeries?
    ensures RemoveMountain(SeriesAddMountainBefore(s, m)) == Trail(s)
    ensures RemoveMountain(AddMountainBefore(Trail(s), m).store) == Trail(s)
  {
  }

  /** Removing the empty branch just added in front gives back the trail
      behind it. */
  lemma RemoveAddedBranch(s: TrailStore)
    requires s.TrailSeries?
    ensures RemoveBranch(SeriesAddEmptyBranchBefore(s)) == s
    ensures RemoveBranch(AddEmptyBranchBefore(Trail(s)).store) == s
  {
  }

  /** The mountains a walk has added, and whether it was stopped. */
  datatype Walked = Walked(mountains: seq<Mountain>, stopped: bool)

  /** One walk and then another, unless the first was stopped. */
  function Then(a: Walked, b: Walked): Walked
  {
    if a.stopped then a else Walked(a.mountains + b.mountains, b.stopped)
  }

  lemma ThenAssociative(a: Walked, b: Walked, c: Walked)
    ensures Then(Then(a, b), c) == Then(a, Then(b, c))
  {
  }

  /** The walk `follow_path` makes through a store: every mountain of a
      series in turn; at a split, the chosen branch to its end and then the
      following trail; a stop answer ends the whole walk. */
  function Walk(s: TrailStore, choose: (Trail, Trail) -> Decision): (r: Walked)
    ensures |r.mountains| < Size(s)
  {
    match s
    case NoStore => Walked([], false)
    case TrailSeries(m, f) => Then(Walked([m], false), Walk(f.store, choose))
    case TrailSplit(top, bottom, f) =>
      match choose(top, bottom)
      case Top => Then(Walk(top.store, choose), Walk(f.store, choose))
      case Bottom => Then(Walk(bottom.store, choose), Walk(f.store, choose))
      case Stop => Walked([], true)
  }

  /** The walk of the stores on the stack `path`, the top of the stack (its
      last element) first. */
  function WalkStack(path: seq<TrailStore>, choose: (Trail, Trail) -> Decision): Walked
  {
    if path == [] then Walked([], false)
    else Then(Walk(path[|path| - 1], choose), WalkStack(path[..|path| - 1], choose))
  }

  /** The number of stores in a store, counting empty ones. */
  function Size(s: TrailStore): (r: nat)
    ensures r >= 1
  {
    match s
    case NoStore => 1
    case TrailSeries(_, f) => 1 + Size(f.store)
    case TrailSplit(top, bottom, f) => 1 + Size(top.store) + Size(bottom.store) + Size(f.store)
  }

  function StackSize(path: seq<TrailStore>): nat
  {
    if path == [] then 0 else StackSize(path[..|path| - 1]) + Size(path[|path| - 1])
  }

  /** A trail of series only: its mountains front to back. */
  function SeriesMountains(s: TrailStore): Option<seq<Mountain>>
  {
    match s
    case NoStore => Some([])
    case TrailSeries(m, f) =>
      (match SeriesMountains(f.store)
       case Some(ms) => Some([m] + ms)
       case None => None)
    case TrailSplit(_, _, _) => None
  }

  /** On a trail of series only, the walk adds every mountain once, front to
      back, whatever the walker would choose, and is never stopped. */
  lemma {:induction false} WalkSeries(s: TrailStore, choose: (Trail, Trail) -> Decision)
    requires SeriesMountains(s).Some?
    ensures Walk(s, choose) == Walked(SeriesMountains(s).value, false)
  {
    if s.TrailSeries? {
      WalkSeries(s.following.store, choose);
    }
  }

  /** A mountain added before a trail is walked first, then the trail. */
  lemma WalkAddMountainBefore(t: Trail, m: Mountain, choose: (Trail, Trail) -> Decision)
    ensures Walk(AddMountainBefore(t, m).store, choose).mountains == [m] + Walk(t.store, choose).mountains
    ensures Walk(AddMountainBefore(t, m).store, choose).stopped == Walk(t.store, choose).stopped
  {
  }

  /** An empty branch added before a trail adds nothing to a walk that takes
      either branch of it, and ends a walk that stops there. */
  lemma WalkAddEmptyBranchBefore(t: Trail, choose: (Trail, Trail) -> Decision)
    ensures choose(Trail(NoStore), Trail(NoStore)) != Stop ==>
      Walk(AddEmptyBranchBefore(t).store, choose) == Walk(t.store, choose)
    ensures choose(Trail(NoStore), Trail(NoStore)) == Stop ==>
      Walk(AddEmptyBranchBefore(t).store, choose) == Walked([], true)
  {
  }

  /** A mountain added after the first one is walked right after it. */
  lemma WalkAddMountainAfter(s: TrailStore, m: Mountain, choose: (Trail, Trail) -> Decision)
    requires s.TrailSeries?
    ensures Walk(AddMountainAfter(s, m), choose).mountains
         == [s.mountain, m] + Walk(s.following.store, choose).mountains
    ensures Walk(AddMountainAfter(s, m), choose).stopped == Walk(s.following.store, choose).stopped
  {
  }

  /** An empty branch added after the first mountain: that mountain is
      walked, then nothing more is added by the branch, whichever one is
      taken; a walk that stops there ends right after the mountain. */
  lemma WalkAddEmptyBranchAfter(s: TrailStore, choose: (Trail, Trail) -> Decision)
    requires s.TrailSeries?
    ensures choose(Trail(NoStore), Trail(NoStore)) != Stop ==>
      Walk(AddEmptyBranchAfter(s), choose) == Then(Walked([s.mountain], false), Walk(s.following.store, choose))
    ensures choose(Trail(NoStore), Trail(NoStore)) == Stop ==>
      Walk(AddEmptyBranchAfter(s), choose) == Walked([s.mountain], true)
  {
    var split := TrailSplit(Trail(NoStore), Trail(NoStore), s.following);
    var rest := Walk(s.following.store, choose);
    if choose(Trail(NoStore), Trail(NoStore)) != Stop {
      assert Walk(split, choose) == Then(Walked([], false), rest);
      assert Then(Walked([], false), rest) == rest;
    }
  }

  /** Pushing a store puts its walk in front of the stack's. */
  lemma Push(path: seq<TrailStore>, x: TrailStore, choose: (Trail, Trail) -> Decision)
    ensures WalkStack(path + [x], choose) == Then(Walk(x, choose), WalkStack(path, choose))
    ensures StackSize(path + [x]) == StackSize(path) + Size(x)
  {
    assert (path + [x])[..|path|] == path;
  }

  /** Pushing the following trail of a split unless it is empty. */
  function PushFollowing(path: seq<TrailStore>, f: Trail): seq<TrailStore>
  {
    if f.store != NoStore then path + [f.store] else path
  }

  lemma PushFollowingWalk(path: seq<TrailStore>, f: Trail, choose: (Trail, Trail) -> Decision)
    ensures WalkStack(PushFollowing(path, f), choose) == Then(Walk(f.store, choose), WalkStack(path, choose))
    ensures StackSize(PushFollowing(path, f)) <= StackSize(path) + Size(f.store)
  {
    if f.store != NoStore {
      Push(path, f.store, choose);
    }
  }

  /** A split whose chosen branch is pushed over its following trail walks
      as the split itself. */
  lemma SplitStep(rest: seq<TrailStore>, split: TrailStore, branch: Trail, choose: (Trail, Trail) -> Decision)
    requires split.TrailSplit?
    requires var d := choose(split.top, split.bottom);
      (d == Top && branch == split.top) || (d == Bottom && branch == split.bottom)
    ensures var pushed := PushFollowing(rest, split.following) + [branch.store];
      && WalkStack(pushed, choose) == Then(Walk(split, choose), WalkStack(rest, choose))
      && StackSize(pushed) < StackSize(rest) + Size(split)
  {
    var pushed := PushFollowing(rest, split.following);
    PushFollowingWalk(rest, split.following, choose);
    Push(pushed, branch.store, choose);
    ThenAssociative(Walk(branch.store, choose), Walk(split.following.store, choose), WalkStack(rest, choose));
  }

  /** A series whose mountain is added and whose following trail is pushed
      walks as the series itself. */
  lemma SeriesStep(added: seq<Mountain>, rest: seq<TrailStore>, series: TrailStore, choose: (Trail, Trail) -> Decision)
    requires series.TrailSeries?
    ensures var pushed := PushFollowing(rest, series.following);
      && Then(Walked(added + [series.mountain], false), WalkStack(pushed, choose))
         == Then(Walked(added, false), Then(Walk(series, choose), WalkStack(rest, choose)))
      && StackSize(pushed) < StackSize(rest) + Size(series)
  {
    var pushed := PushFollowing(rest, series.following);
    PushFollowingWalk(rest, series.following, choose);
    var x := WalkStack(pushed, choose);
    assert (added + [series.mountain]) + x.mountains == added + ([series.mountain] + x.mountains);
    ThenAssociative(Walked([series.mountain], false), Walk(series.following.store, choose), WalkStack(rest, choose));
  }

  /** The stack walk of `follow_path` and the recursive walk agree. The
      stack holds the stores still to walk, the top first; the walk so far
      plus the walk of the stack is always the whole walk. */
  method FollowPath(t: Trail, choose: (Trail, Trail) -> Decision) returns (added: seq<Mountain>)
    ensures added == Walk(t.store, choose).mountains
  {
    var path := [t.store];
    added := [];
    Push([], t.store, choose);
    while path != []
      invariant Walk(t.store, choose) == Then(Walked(added, false), WalkStack(path, choose))
      decreases StackSize(path)
    {
      var pointer := path[|path| - 1];
      var rest := path[..|path| - 1];
      assert path == rest + [pointer];
      Push(rest, pointer, choose);
      match pointer {
        case TrailSplit(top, bottom, following) =>
          path := PushFollowing(rest, following);
          var decision := choose(top, bottom);
          if decision == Top {
            SplitStep(rest, pointer, top, choose);
            path := path + [top.store];
          } else if decision == Bottom {
            SplitStep(rest, pointer, bottom, choose);
            path := path + [bottom.store];
          } else {
            break;
          }
        case TrailSeries(m, following) =>
          SeriesStep(added, rest, pointer, choose);
          added := added + [m];
          path := PushFollowing(rest, following);
        case NoStore =>
          path := rest;
      }
    }
  }
}
