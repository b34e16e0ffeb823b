/** The pure part of `rename_mp3_files` (main.py): which directory entries take
    part, the count gate, the sorted order, the new names, and the meaning of
    the rename loop as a function of the directory it starts from. */
module RenamePlan {
  import opened StringOrder
  import opened TrackNumber

  const Extension: string := ".mp3"

  /** `name.endswith('.mp3')`. */
  predicate EndsWithMp3(name: string) {
    |name| >= |Extension| && name[|name| - |Extension|..] == Extension
  }

  /** `listing` is what `os.listdir` may return for a directory with entry
      names `keys`: each name exactly once, in some order. */
  predicate IsListing(listing: seq<string>, keys: set<string>) {
    && Distinct(listing)
    && (forall x :: x in listing ==> x in keys)
    && (forall x :: x in keys ==> x in listing)
  }

  /** `[f for f in listing if f.endswith('.mp3')]`. */
  function Mp3Names(listing: seq<string>): (r: seq<string>)
    ensures forall x :: x in r <==> x in listing && EndsWithMp3(x)
    ensures Distinct(listing) ==> Distinct(r)
    decreases |listing|
  {
    if listing == [] then []
    else
      var rest := Mp3Names(listing[1..]);
      assert listing == [listing[0]] + listing[1..];
      if EndsWithMp3(listing[0]) then [listing[0]] + rest else rest
  }

  /** The set of `.mp3` entry names of a directory. */
  function Mp3Keys(keys: set<string>): (mp3: set<string>) {
    set x | x in keys && EndsWithMp3(x)
  }

  /** A sequence without repetitions has as many elements as its set. */
  lemma {:induction false} DistinctCardinality(s: seq<string>)
    requires Distinct(s)
    ensures |set x | x in s| == |s|
    decreases |s|
  {
    if s != [] {
      DistinctCardinality(s[1..]);
      assert (set x | x in s) == (set x | x in s[1..]) + {s[0]};
      assert s[0] !in (set x | x in s[1..]);
    }
  }

  /** The count the gate compares is the number of `.mp3` entries of the
      directory, whatever order `os.listdir` lists them in. */
  lemma Mp3Count(listing: seq<string>, keys: set<string>)
    requires IsListing(listing, keys)
    ensures |Mp3Names(listing)| == |Mp3Keys(keys)|
  {
    var m := Mp3Names(listing);
    DistinctCardinality(m);
    assert (set x | x in m) == Mp3Keys(keys);
  }

  /** The new name of the file at 0-based position `i`:
      `f"{i+1:02d}_" + title + '.mp3'`. */
  function NewName(i: nat, title: string): (name: string) {
    Prefix(i + 1) + (title + Extension)
  }

  /** Every new name is an `.mp3` name that starts with the position prefix. */
  lemma NewNameShape(i: nat, title: string)
    ensures EndsWithMp3(NewName(i, title))
    ensures NewName(i, title)[..|Prefix(i + 1)|] == Prefix(i + 1)
    ensures |NewName(i, title)| == |Prefix(i + 1)| + |title| + |Extension|
  {
    var n := NewName(i, title);
    assert n[|n| - |Extension|..] == Extension;
  }

  /** Different positions never produce the same new name, even for equal
      titles; a new name determines its position and its title. */
  lemma NewNameInjective(i: nat, j: nat, t: string, u: string)
    requires NewName(i, t) == NewName(j, u)
    ensures i == j && t == u
  {
    PrefixInjective(i + 1, j + 1, t + Extension, u + Extension);
    assert t == (t + Extension)[..|t|];
    assert u == (u + Extension)[..|u|];
  }

  /** One `os.rename(source, target)` the loop performs. */
  datatype Step = Step(source: string, target: string)

  /** What the function does before it renames anything: either it stops at
      the count check, or it has the renames to attempt, in order. */
  datatype Plan = CountMismatch(mp3Count: nat, trackCount: nat) | Renames(steps: seq<Step>)

  function PlanRenames(listing: seq<string>, tracks: seq<string>): (plan: Plan) {
    var mp3 := Mp3Names(listing);
    if |mp3| != |tracks| then CountMismatch(|mp3|, |tracks|)
    else
      Renames(Steps(Sort(mp3), tracks))
  }

  /** Step `i` renames `sorted[i]` to the `i`-th new name. The `ensures`
      only unfolds the comprehension for the proofs that index it. */
  function Steps(sorted: seq<string>, tracks: seq<string>): (steps: seq<Step>)
    requires |sorted| == |tracks|
    ensures |steps| == |tracks|
    ensures forall i :: 0 <= i < |tracks| ==> steps[i] == Step(sorted[i], NewName(i, tracks[i]))
  {
    seq(|tracks|, i requires 0 <= i < |tracks| => Step(sorted[i], NewName(i, tracks[i])))
  }

  /** The count gate: the plan stops with both counts exactly when the
      number of `.mp3` entries differs from the number of tracks. */
  lemma PlanGate(listing: seq<string>, tracks: seq<string>, keys: set<string>)
    requires IsListing(listing, keys)
    ensures PlanRenames(listing, tracks).CountMismatch? <==> |Mp3Keys(keys)| != |tracks|
    ensures PlanRenames(listing, tracks).CountMismatch? ==>
              PlanRenames(listing, tracks) == CountMismatch(|Mp3Keys(keys)|, |tracks|)
  {
    Mp3Count(listing, keys);
  }

  /** When the counts agree there is one step per track, in track order, and
      step `i` renames the `i`-th `.mp3` entry in ascending order to the
      `i`-th new name; the sources are strictly ascending, so no entry is
      renamed twice. */
  lemma PlanSteps(listing: seq<string>, tracks: seq<string>)
    requires Distinct(listing)
    requires PlanRenames(listing, tracks).Renames?
    ensures var steps := PlanRenames(listing, tracks).steps;
      && |steps| == |tracks|
      && (forall i :: 0 <= i < |steps| ==> steps[i].target == NewName(i, tracks[i]))
      && (forall i :: 0 <= i < |steps| ==> steps[i].source == Sort(Mp3Names(listing))[i])
      && (forall i, j :: 0 <= i < j < |steps| ==>
            LexLe(steps[i].source, steps[j].source) && steps[i].source != steps[j].source)
  {
    var sorted := Sort(Mp3Names(listing));
    var steps := PlanRenames(listing, tracks).steps;
    forall i, j | 0 <= i < j < |steps|
      ensures LexLe(steps[i].source, steps[j].source) && steps[i].source != steps[j].source
    {
      assert LexLe(sorted[i], sorted[j]);
    }
  }

  /** The sources of the steps are exactly the `.mp3` entries. */
  lemma PlanSources(listing: seq<string>, tracks: seq<string>, keys: set<string>, x: string)
    requires IsListing(listing, keys)
    requires PlanRenames(listing, tracks).Renames?
    ensures var steps := PlanRenames(listing, tracks).steps;
      x in Mp3Keys(keys) <==> exists i :: 0 <= i < |steps| && steps[i].source == x
  {
    var sorted := Sort(Mp3Names(listing));
    var steps := PlanRenames(listing, tracks).steps;
    SortKeepsElements(Mp3Names(listing), x);
    if x in sorted {
      var i :| 0 <= i < |sorted| && sorted[i] == x;
      assert steps[i].source == x;
    }
  }

  /** Two listings of the same directory have the same `.mp3` names. */
  lemma SameMp3Names(l1: seq<string>, l2: seq<string>, keys: set<string>, x: string)
    requires IsListing(l1, keys) && IsListing(l2, keys)
    ensures x in Sort(Mp3Names(l1)) <==> x in Sort(Mp3Names(l2))
  {
    SortKeepsElements(Mp3Names(l1), x);
    SortKeepsElements(Mp3Names(l2), x);
    assert x in Mp3Names(l1) <==> x in Mp3Names(l2);
  }

  /** Sorting makes the plan independent of the order `os.listdir` returns. */
  lemma ListingOrderIrrelevant(l1: seq<string>, l2: seq<string>, keys: set<string>, tracks: seq<string>)
    requires IsListing(l1, keys) && IsListing(l2, keys)
    ensures PlanRenames(l1, tracks) == PlanRenames(l2, tracks)
  {
    Mp3Count(l1, keys);
    Mp3Count(l2, keys);
    forall x ensures x in Sort(Mp3Names(l1)) <==> x in Sort(Mp3Names(l2)) {
      SameMp3Names(l1, l2, keys, x);
    }
    SortedUnique(Sort(Mp3Names(l1)), Sort(Mp3Names(l2)));
  }

  /** Every source and every target of a plan is an `.mp3` name. */
  lemma PlanTouchesOnlyMp3(listing: seq<string>, tracks: seq<string>)
    requires PlanRenames(listing, tracks).Renames?
    ensures forall s :: s in PlanRenames(listing, tracks).steps ==>
              EndsWithMp3(s.source) && EndsWithMp3(s.target)
  {
    var steps := PlanRenames(listing, tracks).steps;
    var sorted := Sort(Mp3Names(listing));
    forall s | s in steps ensures EndsWithMp3(s.source) && EndsWithMp3(s.target) {
      var i :| 0 <= i < |steps| && steps[i] == s;
      assert sorted[i] in multiset(Mp3Names(listing));
      NewNameShape(i, tracks[i]);
    }
  }

  /** The targets of a plan are pairwise different. */
  lemma PlanTargetsDistinct(listing: seq<string>, tracks: seq<string>)
    requires PlanRenames(listing, tracks).Renames?
    ensures var steps := PlanRenames(listing, tracks).steps;
            forall i, j :: 0 <= i < j < |steps| ==> steps[i].target != steps[j].target
  {
    var steps := PlanRenames(listing, tracks).steps;
    forall i, j | 0 <= i < j < |steps| ensures steps[i].target != steps[j].target {
      if steps[i].target == steps[j].target {
        NewNameInjective(i, j, tracks[i], tracks[j]);
      }
    }
  }

  /** What a successful `os.rename(source, target)` does to the directory:
      the entry found at `source` is now found at `target`, replacing any
      entry that was there. */
  function Moved<T>(entries: map<string, T>, source: string, target: string): (m: map<string, T>)
    requires source in entries
  {
    (entries - {source})[target := entries[source]]
  }

  /** A rename moves one entry and leaves every other name as it was. */
  lemma MovedEffect<T>(entries: map<string, T>, source: string, target: string, x: string)
    requires source in entries
    ensures var m := Moved(entries, source, target);
      && target in m && m[target] == entries[source]
      && (source != target ==> source !in m)
      && (x != source && x != target ==> (x in m <==> x in entries) && (x in m ==> m[x] == entries[x]))
  {
  }

  /** The rename of `s` succeeds unless its source is missing or the
      environment (permissions, characters the file system forbids, a
      platform that refuses to replace an existing target) refuses it. */
  predicate Succeeds<T>(entries: map<string, T>, s: Step, refuses: (string, string) -> bool) {
    s.source in entries && !refuses(s.source, s.target)
  }

  /** The line printed after a successful rename: `Renamed '<old>' to '<new>'`. */
  function RenamedLine(s: Step): (line: string) {
    "Renamed '" + s.source + "' to '" + s.target + "'"
  }

  /** Where the loop stopped: after its last step, at a rename that raised,
      or at the `print` after a rename, which raised (`printRaises` is the
      environment's verdict on writing a line to standard output: an
      encoding that cannot hold a title, a closed pipe). */
  datatype Stop = Finished | RenameFailed | ReportFailed

  /** How far the loop got: the directory reached, the number of renames
      performed and where it stopped. */
  datatype RunResult<T> = RunResult(entries: map<string, T>, done: nat, stop: Stop)

  /** The rename loop, inside one `try`: each step renames and then prints,
      the steps are attempted in order, and the first rename or print that
      raises ends the loop. */
  function Run<T>(entries: map<string, T>, steps: seq<Step>, refuses: (string, string) -> bool,
                  printRaises: string -> bool): (r: RunResult<T>)
    ensures r.done <= |steps|
    ensures r.stop == Finished ==> r.done == |steps|
    ensures r.stop == ReportFailed ==> 0 < r.done
    decreases |steps|
  {
    if steps == [] then RunResult(entries, 0, Finished)
    else if !Succeeds(entries, steps[0], refuses) then RunResult(entries, 0, RenameFailed)
    else
      var next := Moved(entries, steps[0].source, steps[0].target);
      if printRaises(RenamedLine(steps[0])) then RunResult(next, 1, ReportFailed)
      else
        var r := Run(next, steps[1..], refuses, printRaises);
        RunResult(r.entries, r.done + 1, r.stop)
  }

  /** Running `a + b` is running `a`, then, if nothing raised, `b` from the
      directory `a` left behind. */
  lemma {:induction false} RunAppend<T>(entries: map<string, T>, a: seq<Step>, b: seq<Step>,
                                        refuses: (string, string) -> bool, printRaises: string -> bool)
    ensures Run(entries, a + b, refuses, printRaises) ==
      var ra := Run(entries, a, refuses, printRaises);
      if ra.stop != Finished then ra
      else
        var rb := Run(ra.entries, b, refuses, printRaises);
        RunResult(rb.entries, ra.done + rb.done, rb.stop)
    decreases |a|
  {
    if a == [] {
      assert a + b == b;
    } else {
      assert (a + b)[0] == a[0];
      assert (a + b)[1..] == a[1..] + b;
      if Succeeds(entries, a[0], refuses) && !printRaises(RenamedLine(a[0])) {
        RunAppend(Moved(entries, a[0].source, a[0].target), a[1..], b, refuses, printRaises);
      }
    }
  }

  /** One more iteration of the loop: after `i` renames performed and
      reported, rename `i` raises and ends the loop; or it succeeds and its
      report raises, ending the loop with rename `i` kept; or both succeed
      and the loop goes on. */
  lemma RunExtend<T>(entries: map<string, T>, steps: seq<Step>, refuses: (string, string) -> bool,
                     printRaises: string -> bool, i: nat, current: map<string, T>)
    requires i < |steps|
    requires Run(entries, steps[..i], refuses, printRaises) == RunResult(current, i, Finished)
    ensures !Succeeds(current, steps[i], refuses) ==>
              Run(entries, steps, refuses, printRaises) == RunResult(current, i, RenameFailed)
    ensures Succeeds(current, steps[i], refuses) && printRaises(RenamedLine(steps[i])) ==>
              Run(entries, steps, refuses, printRaises) ==
              RunResult(Moved(current, steps[i].source, steps[i].target), i + 1, ReportFailed)
    ensures Succeeds(current, steps[i], refuses) && !printRaises(RenamedLine(steps[i])) ==>
              Run(entries, steps[..i + 1], refuses, printRaises) ==
              RunResult(Moved(current, steps[i].source, steps[i].target), i + 1, Finished)
  {
    RunAppend(entries, steps[..i], [steps[i]], refuses, printRaises);
    assert steps[..i] + [steps[i]] == steps[..i + 1];
    assert [steps[i]][1..] == [];
    RunAppend(entries, steps[..i], steps[i..], refuses, printRaises);
    assert steps[..i] + steps[i..] == steps;
    assert steps[i..][0] == steps[i];
  }

  /** The loop either performs every step, or stops at the first rename or
      print that raises, after performing all earlier steps: a rename that
      raised left the directory as the earlier steps produced it, and a
      print that raised came after its rename had been performed. */
  lemma {:induction false} RunStopsAtFirstFailure<T>(entries: map<string, T>, steps: seq<Step>,
                                                     refuses: (string, string) -> bool,
                                                     printRaises: string -> bool)
    ensures var r := Run(entries, steps, refuses, printRaises);
      && (r.stop == RenameFailed ==>
            && r.done < |steps|
            && Run(entries, steps[..r.done], refuses, printRaises) == RunResult(r.entries, r.done, Finished)
            && !Succeeds(r.entries, steps[r.done], refuses))
      && (r.stop == ReportFailed ==>
            var k := r.done - 1;
            var prev := Run(entries, steps[..k], refuses, printRaises);
            && prev == RunResult(prev.entries, k, Finished)
            && Succeeds(prev.entries, steps[k], refuses)
            && r.entries == Moved(prev.entries, steps[k].source, steps[k].target)
            && printRaises(RenamedLine(steps[k])))
    decreases |steps|
  {
    if steps != [] && Succeeds(entries, steps[0], refuses) && !printRaises(RenamedLine(steps[0])) {
      var next := Moved(entries, steps[0].source, steps[0].target);
      RunStopsAtFirstFailure(next, steps[1..], refuses, printRaises);
      var r := Run(next, steps[1..], refuses, printRaises);
      if r.stop == RenameFailed {
        assert steps[..r.done + 1][1..] == steps[1..][..r.done];
      } else if r.stop == ReportFailed {
        assert steps[..r.done][0] == steps[0];
        assert steps[..r.done][1..] == steps[1..][..r.done - 1];
      }
    }
  }

  /** A name that none of the performed renames uses, as source or target,
      keeps its entry: later files keep their names. */
  lemma {:induction false} RunFrame<T>(entries: map<string, T>, steps: seq<Step>,
                                       refuses: (string, string) -> bool, printRaises: string -> bool,
                                       x: string)
    requires forall k :: 0 <= k < Run(entries, steps, refuses, printRaises).done && k < |steps| ==>
               x != steps[k].source && x != steps[k].target
    ensures var r := Run(entries, steps, refuses, printRaises);
      (x in r.entries <==> x in entries) && (x in entries ==> r.entries[x] == entries[x])
    decreases |steps|
  {
    if steps != [] && Succeeds(entries, steps[0], refuses) {
      var next := Moved(entries, steps[0].source, steps[0].target);
      assert x != steps[0].source && x != steps[0].target;
      MovedEffect(entries, steps[0].source, steps[0].target, x);
      if !printRaises(RenamedLine(steps[0])) {
        forall k | 0 <= k < Run(next, steps[1..], refuses, printRaises).done && k < |steps[1..]|
          ensures x != steps[1..][k].source && x != steps[1..][k].target
        {
          assert steps[1..][k] == steps[k + 1];
        }
        RunFrame(next, steps[1..], refuses, printRaises, x);
      }
    }
  }

  function Sources(steps: seq<Step>): (sources: set<string>) {
    set i | 0 <= i < |steps| :: steps[i].source
  }

  function Targets(steps: seq<Step>): (targets: set<string>) {
    set i | 0 <= i < |steps| :: steps[i].target
  }

  lemma SourcesTargetsCons(steps: seq<Step>)
    requires steps != []
    ensures Sources(steps) == Sources(steps[1..]) + {steps[0].source}
    ensures Targets(steps) == Targets(steps[1..]) + {steps[0].target}
  {
    var rest := steps[1..];
    forall x | x in Sources(steps) ensures x in Sources(rest) + {steps[0].source} {
      var i :| 0 <= i < |steps| && steps[i].source == x;
      if i > 0 { assert rest[i - 1] == steps[i]; }
    }
    forall x | x in Sources(rest) ensures x in Sources(steps) {
      var i :| 0 <= i < |rest| && rest[i].source == x;
      assert steps[i + 1] == rest[i];
    }
    forall x | x in Targets(steps) ensures x in Targets(rest) + {steps[0].target} {
      var i :| 0 <= i < |steps| && steps[i].target == x;
      if i > 0 { assert rest[i - 1] == steps[i]; }
    }
    forall x | x in Targets(rest) ensures x in Targets(steps) {
      var i :| 0 <= i < |rest| && rest[i].target == x;
      assert steps[i + 1] == rest[i];
    }
  }

  /** Without collisions, refusals or failing prints the loop performs every
      step: each source's entry ends up under its target, and no other entry
      changes. A target may already exist only as its own source (a file that
      already carries its new name), where the rename changes nothing. */
  lemma {:induction false} RunAllSucceed<T>(entries: map<string, T>, steps: seq<Step>,
                                            refuses: (string, string) -> bool, printRaises: string -> bool)
    requires forall i :: 0 <= i < |steps| ==>
               steps[i].source in entries && (steps[i].target !in entries || steps[i].target == steps[i].source)
    requires forall i, j :: 0 <= i < j < |steps| ==>
               steps[i].source != steps[j].source && steps[i].target != steps[j].target
    requires forall i :: 0 <= i < |steps| ==>
               !refuses(steps[i].source, steps[i].target) && !printRaises(RenamedLine(steps[i]))
    ensures var r := Run(entries, steps, refuses, printRaises);
      && r.stop == Finished && r.done == |steps|
      && r.entries.Keys == (entries.Keys - Sources(steps)) + Targets(steps)
      && (forall i :: 0 <= i < |steps| ==> r.entries[steps[i].target] == entries[steps[i].source])
      && (forall x :: x in entries && x !in Sources(steps) ==> r.entries[x] == entries[x])
    decreases |steps|
  {
    if steps != [] {
      var s0 := steps[0];
      var rest := steps[1..];
      var next := Moved(entries, s0.source, s0.target);
      assert next.Keys == entries.Keys - {s0.source} + {s0.target};
      forall i | 0 <= i < |rest|
        ensures rest[i].source in next && (rest[i].target !in next || rest[i].target == rest[i].source)
      {
        assert rest[i] == steps[i + 1];
      }
      forall i, j | 0 <= i < j < |rest|
        ensures rest[i].source != rest[j].source && rest[i].target != rest[j].target
      {
        assert rest[i] == steps[i + 1] && rest[j] == steps[j + 1];
      }
      forall i | 0 <= i < |rest|
        ensures !refuses(rest[i].source, rest[i].target) && !printRaises(RenamedLine(rest[i]))
      {
        assert rest[i] == steps[i + 1];
      }
      RunAllSucceed(next, rest, refuses, printRaises);
      var r := Run(next, rest, refuses, printRaises);
      SourcesTargetsCons(steps);
      assert s0.target !in Sources(rest) by {
        forall k | 0 <= k < |rest| ensures rest[k].source != s0.target {
          assert rest[k] == steps[k + 1];
        }
      }
      forall k | 0 <= k < r.done && k < |rest|
        ensures s0.target != rest[k].source && s0.target != rest[k].target
      {
        assert rest[k] == steps[k + 1];
      }
      RunFrame(next, rest, refuses, printRaises, s0.target);
      forall i | 0 <= i < |steps| ensures r.entries[steps[i].target] == entries[steps[i].source] {
        if i > 0 {
          assert rest[i - 1] == steps[i];
        }
      }
      forall x | x in entries && x !in Sources(steps) ensures r.entries[x] == entries[x] {
        assert x != s0.source;
        assert x in next && next[x] == entries[x];
      }
    }
  }

  /** How `rename_mp3_files` ends: `os.listdir` raised (a missing folder is
      caught by the `FileNotFoundError` handler, any other failure by the
      broad one); the mismatch message with both counts; the rename at
      `index` raised; the rename at `index` was performed and the `print`
      reporting it raised (both caught by the broad `except`); or
      "Renaming complete!". */
  datatype Outcome =
    | ListingRaised
    | MismatchReported(mp3Count: nat, trackCount: nat)
    | RenameRaised(index: nat)
    | ReportRaised(index: nat)
    | RenamingComplete

  /** The directory a call leaves behind and how the call ends. */
  datatype Effect<T> = Effect(entries: map<string, T>, outcome: Outcome)

  /** `rename_mp3_files` on a directory listed as `listing`. */
  function RenameEffect<T>(entries: map<string, T>, listing: seq<string>, tracks: seq<string>,
                           refuses: (string, string) -> bool, printRaises: string -> bool): (eff: Effect<T>)
  {
    match PlanRenames(listing, tracks)
    case CountMismatch(m, n) => Effect(entries, MismatchReported(m, n))
    case Renames(steps) =>
      var r := Run(entries, steps, refuses, printRaises);
      Effect(r.entries,
             match r.stop
             case Finished => RenamingComplete
             case RenameFailed => RenameRaised(r.done)
             case ReportFailed => ReportRaised(r.done - 1))
  }

  /** The count gate: a count mismatch is reported, with both counts,
      exactly when the number of `.mp3` entries differs from the number of
      tracks, and then the directory is left as it was. */
  lemma MismatchTouchesNothing<T>(entries: map<string, T>, listing: seq<string>, tracks: seq<string>,
                                  refuses: (string, string) -> bool, printRaises: string -> bool)
    requires IsListing(listing, entries.Keys)
    ensures var eff := RenameEffect(entries, listing, tracks, refuses, printRaises);
      && (eff.outcome.MismatchReported? <==> |Mp3Keys(entries.Keys)| != |tracks|)
      && (eff.outcome.MismatchReported? ==>
            eff == Effect(entries, MismatchReported(|Mp3Keys(entries.Keys)|, |tracks|)))
  {
    PlanGate(listing, tracks, entries.Keys);
  }

  /** An entry whose name does not end in `.mp3` is never renamed and never
      replaced, however the call ends. */
  lemma NonMp3EntriesUntouched<T>(entries: map<string, T>, listing: seq<string>, tracks: seq<string>,
                                  refuses: (string, string) -> bool, printRaises: string -> bool, x: string)
    requires !EndsWithMp3(x)
    ensures var eff := RenameEffect(entries, listing, tracks, refuses, printRaises);
      (x in eff.entries <==> x in entries) && (x in entries ==> eff.entries[x] == entries[x])
  {
    var p := PlanRenames(listing, tracks);
    if p.Renames? {
      PlanTouchesOnlyMp3(listing, tracks);
      forall k | 0 <= k < Run(entries, p.steps, refuses, printRaises).done && k < |p.steps|
        ensures x != p.steps[k].source && x != p.steps[k].target
      {
        assert p.steps[k] in p.steps;
      }
      RunFrame(entries, p.steps, refuses, printRaises, x);
    }
  }

  /** No rename before position `k` has the source of step `j` as its target. */
  predicate NotTargetBefore(steps: seq<Step>, k: nat, j: nat)
    requires k <= |steps| && j < |steps|
  {
    forall m :: 0 <= m < k ==> steps[m].target != steps[j].source
  }

  /** When a rename raises at position `k`, the loop ends there: renames
      `0 .. k-1` have been performed, in order, and are kept; rename `k` did
      not succeed on the directory they produced; and a later file whose name
      no performed rename used keeps its name and its content. */
  lemma FailureEndsLoop<T>(entries: map<string, T>, listing: seq<string>, tracks: seq<string>,
                           refuses: (string, string) -> bool, printRaises: string -> bool)
    requires Distinct(listing)
    requires RenameEffect(entries, listing, tracks, refuses, printRaises).outcome.RenameRaised?
    ensures var eff := RenameEffect(entries, listing, tracks, refuses, printRaises);
      var k := eff.outcome.index;
      && PlanRenames(listing, tracks).Renames?
      && var steps := PlanRenames(listing, tracks).steps;
      && k < |tracks|
      && Run(entries, steps[..k], refuses, printRaises) == RunResult(eff.entries, k, Finished)
      && !Succeeds(eff.entries, steps[k], refuses)
      && (forall j :: k < j < |steps| && steps[j].source in entries && NotTargetBefore(steps, k, j) ==>
            steps[j].source in eff.entries && eff.entries[steps[j].source] == entries[steps[j].source])
  {
    var steps := PlanRenames(listing, tracks).steps;
    RunStopsAtFirstFailure(entries, steps, refuses, printRaises);
    PlanSteps(listing, tracks);
    var k := Run(entries, steps, refuses, printRaises).done;
    forall j | k < j < |steps| && steps[j].source in entries && NotTargetBefore(steps, k, j)
      ensures steps[j].source in RenameEffect(entries, listing, tracks, refuses, printRaises).entries
      ensures RenameEffect(entries, listing, tracks, refuses, printRaises).entries[steps[j].source] ==
              entries[steps[j].source]
    {
      RunFrame(entries, steps, refuses, printRaises, steps[j].source);
    }
  }

  /** When the `print` after rename `k` raises, the loop ends there with
      rename `k` kept: renames `0 .. k-1` were performed and reported, rename
      `k` then moved its file to its new name, and a later file whose name no
      performed rename used keeps its name and its content. */
  lemma ReportFailureEndsLoop<T>(entries: map<string, T>, listing: seq<string>, tracks: seq<string>,
                                 refuses: (string, string) -> bool, printRaises: string -> bool)
    requires Distinct(listing)
    requires RenameEffect(entries, listing, tracks, refuses, printRaises).outcome.ReportRaised?
    ensures var eff := RenameEffect(entries, listing, tracks, refuses, printRaises);
      var k := eff.outcome.index;
      && PlanRenames(listing, tracks).Renames?
      && var steps := PlanRenames(listing, tracks).steps;
      && k < |tracks|
      && var prev := Run(entries, steps[..k], refuses, printRaises);
      && prev == RunResult(prev.entries, k, Finished)
      && Succeeds(prev.entries, steps[k], refuses)
      && eff.entries == Moved(prev.entries, steps[k].source, steps[k].target)
      && printRaises(RenamedLine(steps[k]))
      && (forall j :: k < j < |steps| && steps[j].source in entries && NotTargetBefore(steps, k + 1, j) ==>
            steps[j].source in eff.entries && eff.entries[steps[j].source] == entries[steps[j].source])
  {
    var steps := PlanRenames(listing, tracks).steps;
    RunStopsAtFirstFailure(entries, steps, refuses, printRaises);
    PlanSteps(listing, tracks);
    var k := Run(entries, steps, refuses, printRaises).done - 1;
    forall j | k < j < |steps| && steps[j].source in entries && NotTargetBefore(steps, k + 1, j)
      ensures steps[j].source in RenameEffect(entries, listing, tracks, refuses, printRaises).entries
      ensures RenameEffect(entries, listing, tracks, refuses, printRaises).entries[steps[j].source] ==
              entries[steps[j].source]
    {
      RunFrame(entries, steps, refuses, printRaises, steps[j].source);
    }
  }

  /** "Renaming complete!" is reached only after every track's rename and
      its report. */
  lemma CompleteMeansAllRenamed<T>(entries: map<string, T>, listing: seq<string>, tracks: seq<string>,
                                   refuses: (string, string) -> bool, printRaises: string -> bool)
    requires RenameEffect(entries, listing, tracks, refuses, printRaises).outcome == RenamingComplete
    ensures PlanRenames(listing, tracks).Renames?
    ensures var r := Run(entries, PlanRenames(listing, tracks).steps, refuses, printRaises);
      r.stop == Finished && r.done == |tracks|
  {
  }

  /** The names `f"{i+1:02d}_{tracks[i]}.mp3"`. */
  function NewNames(tracks: seq<string>): (names: set<string>) {
    set i | 0 <= i < |tracks| :: NewName(i, tracks[i])
  }

  /** The sources of a plan are the `.mp3` entries, its targets the new names. */
  lemma PlanSourcesAndTargets(listing: seq<string>, tracks: seq<string>, keys: set<string>)
    requires IsListing(listing, keys)
    requires PlanRenames(listing, tracks).Renames?
    ensures Sources(PlanRenames(listing, tracks).steps) == Mp3Keys(keys)
    ensures Targets(PlanRenames(listing, tracks).steps) == NewNames(tracks)
  {
    var steps := PlanRenames(listing, tracks).steps;
    forall x ensures x in Sources(steps) <==> x in Mp3Keys(keys) {
      PlanSources(listing, tracks, keys, x);
    }
    PlanSteps(listing, tracks);
    assert Targets(steps) == NewNames(tracks);
  }

  /** `after` has an entry `name` holding what `before` held under `was`. */
  predicate HoldsContentOf<T(==)>(after: map<string, T>, name: string, before: map<string, T>, was: string) {
    name in after && was in before && after[name] == before[was]
  }

  /** With as many `.mp3` files as tracks, no new name already taken (except
      by the file that is to receive it, as after a run that stopped part
      way), no rename refused and no report failing, the call completes; the `.mp3`
      entries are replaced by exactly the new names, the `i`-th new name
      holding the content of the `i`-th `.mp3` file in ascending order, and
      nothing else changes. */
  lemma CompleteRenamesPositionally<T>(entries: map<string, T>, listing: seq<string>, tracks: seq<string>,
                                       refuses: (string, string) -> bool, printRaises: string -> bool)
    requires IsListing(listing, entries.Keys)
    requires |Mp3Keys(entries.Keys)| == |tracks|
    requires forall i :: 0 <= i < |tracks| && i < |Sort(Mp3Names(listing))| ==>
               NewName(i, tracks[i]) !in entries || NewName(i, tracks[i]) == Sort(Mp3Names(listing))[i]
    requires forall i :: 0 <= i < |tracks| && i < |Sort(Mp3Names(listing))| ==>
               var s := Step(Sort(Mp3Names(listing))[i], NewName(i, tracks[i]));
               !refuses(s.source, s.target) && !printRaises(RenamedLine(s))
    ensures var eff := RenameEffect(entries, listing, tracks, refuses, printRaises);
      && eff.outcome == RenamingComplete
      && eff.entries.Keys == (entries.Keys - Mp3Keys(entries.Keys)) + NewNames(tracks)
      && |Sort(Mp3Names(listing))| == |tracks|
      && (forall i :: 0 <= i < |tracks| && i < |Sort(Mp3Names(listing))| ==>
            HoldsContentOf(eff.entries, NewName(i, tracks[i]), entries, Sort(Mp3Names(listing))[i]))
      && (forall x :: x in entries && !EndsWithMp3(x) ==> HoldsContentOf(eff.entries, x, entries, x))
  {
    PlanGate(listing, tracks, entries.Keys);
    var steps := PlanRenames(listing, tracks).steps;
    PlanSteps(listing, tracks);
    PlanTargetsDistinct(listing, tracks);
    PlanSourcesAndTargets(listing, tracks, entries.Keys);
    forall i | 0 <= i < |steps| ensures steps[i].source in entries {
      assert steps[i].source in Sources(steps);
    }
    RunAllSucceed(entries, steps, refuses, printRaises);
  }

  /** The call does the same whatever order `os.listdir` lists the entries in. */
  lemma ListingOrderDoesNotMatter<T>(entries: map<string, T>, l1: seq<string>, l2: seq<string>,
                                     tracks: seq<string>, refuses: (string, string) -> bool,
                                     printRaises: string -> bool)
    requires IsListing(l1, entries.Keys) && IsListing(l2, entries.Keys)
    ensures RenameEffect(entries, l1, tracks, refuses, printRaises) ==
            RenameEffect(entries, l2, tracks, refuses, printRaises)
  {
    ListingOrderIrrelevant(l1, l2, entries.Keys, tracks);
  }

  // An example: files b.mp3, a.mp3, c.mp3 and three titles.

  lemma ExampleOrder()
    ensures LexLe("a.mp3", "c.mp3") && LexLe("b.mp3", "c.mp3") && !LexLe("b.mp3", "a.mp3")
  {
  }

  lemma ExampleSortTail()
    ensures Sort(["a.mp3", "c.mp3"]) == ["a.mp3", "c.mp3"]
  {
    ExampleOrder();
    assert ["a.mp3", "c.mp3"][1..] == ["c.mp3"];
    assert Sort(["c.mp3"]) == ["c.mp3"];
  }

  lemma ExampleInsertHead()
    ensures Insert("b.mp3", ["a.mp3", "c.mp3"]) == ["a.mp3", "b.mp3", "c.mp3"]
  {
    ExampleOrder();
    assert ["a.mp3", "c.mp3"][1..] == ["c.mp3"];
    assert Insert("b.mp3", ["c.mp3"]) == ["b.mp3", "c.mp3"];
  }

  lemma ExampleNames()
    ensures NewName(0, "Song One") == "01_Song One.mp3"
    ensures NewName(1, "Song Two") == "02_Song Two.mp3"
    ensures NewName(2, "Song Three") == "03_Song Three.mp3"
  {
    assert Prefix(1) == "01_" && Prefix(2) == "02_" && Prefix(3) == "03_";
  }

  lemma ExampleFilter()
    ensures Mp3Names(["b.mp3", "a.mp3", "c.mp3"]) == ["b.mp3", "a.mp3", "c.mp3"]
  {
    var listing := ["b.mp3", "a.mp3", "c.mp3"];
    assert EndsWithMp3("a.mp3") && EndsWithMp3("b.mp3") && EndsWithMp3("c.mp3");
    assert listing[1..] == ["a.mp3", "c.mp3"];
    assert listing[1..][1..] == ["c.mp3"];
    assert listing[1..][1..][1..] == [];
  }

  lemma ExampleSort()
    ensures Sort(["b.mp3", "a.mp3", "c.mp3"]) == ["a.mp3", "b.mp3", "c.mp3"]
  {
    assert ["b.mp3", "a.mp3", "c.mp3"][1..] == ["a.mp3", "c.mp3"];
    ExampleSortTail();
    ExampleInsertHead();
  }

  lemma ExampleSteps()
    ensures Steps(["a.mp3", "b.mp3", "c.mp3"], ["Song One", "Song Two", "Song Three"]) ==
      [Step("a.mp3", "01_Song One.mp3"), Step("b.mp3", "02_Song Two.mp3"), Step("c.mp3", "03_Song Three.mp3")]
  {
    var steps := Steps(["a.mp3", "b.mp3", "c.mp3"], ["Song One", "Song Two", "Song Three"]);
    ExampleNames();
    assert steps[0] == Step("a.mp3", "01_Song One.mp3");
    assert steps[1] == Step("b.mp3", "02_Song Two.mp3");
    assert steps[2] == Step("c.mp3", "03_Song Three.mp3");
  }

  /** a.mp3 becomes `01_Song One.mp3`, b.mp3 `02_Song Two.mp3` and c.mp3
      `03_Song Three.mp3`. */
  lemma ExamplePlan()
    ensures PlanRenames(["b.mp3", "a.mp3", "c.mp3"], ["Song One", "Song Two", "Song Three"]) ==
      Renames([Step("a.mp3", "01_Song One.mp3"),
               Step("b.mp3", "02_Song Two.mp3"),
               Step("c.mp3", "03_Song Three.mp3")])
  {
    ExampleFilter();
    ExampleSort();
    ExampleSteps();
  }

  // Nothing guards a new name against an `.mp3` entry not yet renamed:
  // files 00.mp3 and 01_b.mp3 with titles b, c.

  const CollisionListing: seq<string> := ["00.mp3", "01_b.mp3"]
  const CollisionTracks: seq<string> := ["b", "c"]

  lemma CollisionFilterAndSort()
    ensures Sort(Mp3Names(CollisionListing)) == CollisionListing
  {
    var listing := CollisionListing;
    assert EndsWithMp3("00.mp3") && EndsWithMp3("01_b.mp3");
    assert listing[1..] == ["01_b.mp3"];
    assert listing[1..][1..] == [];
    assert Mp3Names(listing) == listing;
    assert LexLe("00.mp3", "01_b.mp3");
    assert Sort(["01_b.mp3"]) == ["01_b.mp3"];
  }

  lemma CollisionNames()
    ensures NewName(0, "b") == "01_b.mp3" && NewName(1, "c") == "02_c.mp3"
  {
    assert Prefix(1) == "01_" && Prefix(2) == "02_";
  }

  lemma CollisionPlan()
    ensures PlanRenames(CollisionListing, CollisionTracks) ==
      Renames([Step("00.mp3", "01_b.mp3"), Step("01_b.mp3", "02_c.mp3")])
  {
    CollisionFilterAndSort();
    CollisionNames();
    var steps := Steps(CollisionListing, CollisionTracks);
    assert steps[0] == Step("00.mp3", "01_b.mp3");
    assert steps[1] == Step("01_b.mp3", "02_c.mp3");
  }

  lemma CollisionMoves()
    ensures Moved(map["00.mp3" := 0, "01_b.mp3" := 1], "00.mp3", "01_b.mp3") == map["01_b.mp3" := 0]
    ensures Moved(map["01_b.mp3" := 0], "01_b.mp3", "02_c.mp3") == map["02_c.mp3" := 0]
  {
    var e1 := Moved(map["00.mp3" := 0, "01_b.mp3" := 1], "00.mp3", "01_b.mp3");
    assert e1.Keys == {"01_b.mp3"};
    var e2 := Moved(map["01_b.mp3" := 0], "01_b.mp3", "02_c.mp3");
    assert "01_b.mp3" != "02_c.mp3";
    assert e2.Keys == {"02_c.mp3"};
  }

  /** The first rename replaces 01_b.mp3 and the second moves the replacement
      on: the call completes, and the content of 01_b.mp3 is gone. */
  lemma CollisionLosesAFile()
    ensures var entries := map["00.mp3" := 0, "01_b.mp3" := 1];
      var eff := RenameEffect(entries, CollisionListing, CollisionTracks,
                              (s: string, t: string) => false, (line: string) => false);
      eff == Effect(map["02_c.mp3" := 0], RenamingComplete)
  {
    var entries := map["00.mp3" := 0, "01_b.mp3" := 1];
    var refuses := (s: string, t: string) => false;
    var printRaises := (line: string) => false;
    CollisionPlan();
    CollisionMoves();
    var steps := [Step("00.mp3", "01_b.mp3"), Step("01_b.mp3", "02_c.mp3")];
    var e1 := map["01_b.mp3" := 0];
    var e2 := map["02_c.mp3" := 0];
    assert steps[1..] == [Step("01_b.mp3", "02_c.mp3")];
    assert steps[1..][1..] == [];
    assert Run(e1, steps[1..], refuses, printRaises) == RunResult(e2, 1, Finished);
    assert Run(entries, steps, refuses, printRaises) == RunResult(e2, 2, Finished);
  }

  // Running the call again after a run that stopped part way: 01_A.mp3 was
  // renamed before, b.mp3 was not; titles A, B.

  const RerunListing: seq<string> := ["b.mp3", "01_A.mp3"]
  const RerunTracks: seq<string> := ["A", "B"]

  lemma RerunPlan()
    ensures PlanRenames(RerunListing, RerunTracks) ==
      Renames([Step("01_A.mp3", "01_A.mp3"), Step("b.mp3", "02_B.mp3")])
  {
    var listing := RerunListing;
    assert EndsWithMp3("b.mp3") && EndsWithMp3("01_A.mp3");
    assert listing[1..] == ["01_A.mp3"];
    assert listing[1..][1..] == [];
    assert Mp3Names(listing) == listing;
    assert !LexLe("b.mp3", "01_A.mp3");
    assert Sort(["01_A.mp3"]) == ["01_A.mp3"];
    assert Insert("b.mp3", ["01_A.mp3"]) == ["01_A.mp3", "b.mp3"];
    assert Prefix(1) == "01_" && Prefix(2) == "02_";
    var steps := Steps(["01_A.mp3", "b.mp3"], RerunTracks);
    assert steps[0] == Step("01_A.mp3", "01_A.mp3");
    assert steps[1] == Step("b.mp3", "02_B.mp3");
  }

  /** The file that already carries its new name is renamed onto itself, which
      changes nothing; the call completes and the folder is fully renamed. */
  lemma RerunCompletes()
    ensures var entries := map["01_A.mp3" := 0, "b.mp3" := 1];
      var eff := RenameEffect(entries, RerunListing, RerunTracks,
                              (s: string, t: string) => false, (line: string) => false);
      eff == Effect(map["01_A.mp3" := 0, "02_B.mp3" := 1], RenamingComplete)
  {
    var entries := map["01_A.mp3" := 0, "b.mp3" := 1];
    RerunPlan();
    var steps := [Step("01_A.mp3", "01_A.mp3"), Step("b.mp3", "02_B.mp3")];
    assert Moved(entries, "01_A.mp3", "01_A.mp3") == entries;
    assert Moved(entries, "b.mp3", "02_B.mp3") == map["01_A.mp3" := 0, "02_B.mp3" := 1];
    assert steps[1..] == [Step("b.mp3", "02_B.mp3")];
    assert steps[1..][1..] == [];
  }
}
