/** The imperative part of `rename_mp3_files` (main.py): a directory whose
    entries are renamed one at a time, and the loop that renames them. */
module RenameFiles {
  import opened StringOrder
  import opened RenamePlan

  /** A directory: its entries by name, each holding some content `T`;
      whether it can be listed at all (`listable` is false when the folder
      does not exist or may not be read); and the environment's verdict on
      each rename (`refuses(source, target)` stands for whatever makes
      `os.rename` raise besides a missing source). */
  class Directory<T> {
    var entries: map<string, T>
    const listable: bool
    const refuses: (string, string) -> bool

    constructor (initial: map<string, T>, listable: bool, refuses: (string, string) -> bool)
      ensures entries == initial && this.listable == listable && this.refuses == refuses
    {
      entries := initial;
      this.listable := listable;
      this.refuses := refuses;
    }

    /** `os.listdir`: raises (here: `ok` is false) when the folder cannot be
        listed, and otherwise returns every entry name exactly once, in an
        order the model leaves open. */
    method ListDir() returns (ok: bool, names: seq<string>)
      ensures ok == listable
      ensures ok ==> IsListing(names, entries.Keys)
    {
      ok := listable;
      names := [];
      if !ok {
        return;
      }
      var unlisted := entries.Keys;
      while unlisted != {}
        invariant unlisted <= entries.Keys
        invariant Distinct(names)
        invariant forall x :: x in names ==> x in entries.Keys && x !in unlisted
        invariant forall x :: x in entries.Keys ==> x in names || x in unlisted
        decreases unlisted
      {
        var x :| x in unlisted;
        names := names + [x];
        unlisted := unlisted - {x};
      }
    }

    /** `os.rename`: raises (here: returns false and changes nothing) when
        the source is missing or the environment refuses; otherwise the
        entry moves to the new name. */
    method Rename(source: string, target: string) returns (ok: bool)
      modifies this
      ensures ok == Succeeds(old(entries), Step(source, target), refuses)
      ensures entries == if ok then Moved(old(entries), source, target) else old(entries)
    {
      ok := source in entries && !refuses(source, target);
      if ok {
        entries := Moved(entries, source, target);
      }
    }
  }

  /** `rename_mp3_files(folder_path, track_names)`. A folder that cannot be
      listed ends the call at once, with nothing changed. Otherwise `listing`
      is what the call's `os.listdir` returned, and the call ends as
      `RenameEffect` describes for it. Whether printing a line to standard
      output raises is the environment's `printRaises`. */
  method RenameMp3Files<T>(dir: Directory<T>, tracks: seq<string>, printRaises: string -> bool)
    returns (outcome: Outcome, ghost listing: seq<string>)
    modifies dir
    ensures !dir.listable ==> outcome == ListingRaised && dir.entries == old(dir.entries)
    ensures dir.listable ==> IsListing(listing, old(dir.entries).Keys)
    ensures dir.listable ==>
              Effect(dir.entries, outcome) ==
              RenameEffect(old(dir.entries), listing, tracks, dir.refuses, printRaises)
  {
    var listed, names := dir.ListDir();
    listing := names;
    if !listed {
      return ListingRaised, listing;
    }
    var mp3Files := Mp3Names(names);
    if |mp3Files| != |tracks| {
      return MismatchReported(|mp3Files|, |tracks|), listing;
    }
    mp3Files := Sort(mp3Files);
    ghost var start := dir.entries;
    ghost var steps := PlanRenames(listing, tracks).steps;
    assert steps == Steps(mp3Files, tracks);
    var i := 0;
    while i < |tracks|
      invariant 0 <= i <= |tracks|
      invariant Run(start, steps[..i], dir.refuses, printRaises) == RunResult(dir.entries, i, Finished)
    {
      var newName := NewName(i, tracks[i]);
      RunExtend(start, steps, dir.refuses, printRaises, i, dir.entries);
      var ok := dir.Rename(mp3Files[i], newName);
      if !ok {
        return RenameRaised(i), listing;
      }
      if printRaises(RenamedLine(Step(mp3Files[i], newName))) {
        return ReportRaised(i), listing;
      }
      i := i + 1;
    }
    assert steps[..i] == steps;
    outcome := RenamingComplete;
  }
}
