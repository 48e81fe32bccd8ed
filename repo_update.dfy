/**
 * update_repository: every .txt file of the extracted-text folder is moved
 * into the repository under the first free probe name for one timestamp.
 * The probe runs before the move, so it also runs for a file whose move
 * then fails; such a file stays where it is and is not counted.
 */
module RepoUpdate {
  import opened Text
  import opened FileSystem
  import opened RepoNaming

  /** One "Moved and renamed '<source>' to '<name>'" log line. */
  datatype Placement = Placement(source: string, name: string)

  /** The folders, moved_count and the log of successful moves during the loop. */
  datatype UpdateState = UpdateState(folders: Folders, moved: nat, placed: seq<Placement>)

  function Start(fs: Folders): UpdateState {
    UpdateState(fs, 0, [])
  }

  /** shutil.move of text file f succeeds. */
  predicate Movable(fs: Folders, fails: set<FileId>, f: string) {
    IsTxtName(f) && f in fs.extracted && FileId(Extracted, f) !in fails
  }

  /** The new names, in the order they were given. */
  function Names(placed: seq<Placement>): seq<string> {
    seq(|placed|, k requires 0 <= k < |placed| => placed[k].name)
  }

  /** A move appends its new name to the names. */
  lemma NamesSnoc(placed: seq<Placement>, m: Placement)
    ensures Names(placed + [m]) == Names(placed) + [m.name]
  {
  }

  /** One iteration for listed name f. */
  function UpdateStep(s: UpdateState, st: Stamp, f: string, fails: set<FileId>): UpdateState
    requires ValidStamp(st)
  {
    if !IsTxtName(f) then s
    else
      var name := ResolvedName(s.folders.repository, st);
      if Movable(s.folders, fails, f) then
        var fs := s.folders;
        s.(folders := fs.(extracted := fs.extracted - {f}, repository := fs.repository[name := fs.extracted[f]]),
           moved := s.moved + 1, placed := s.placed + [Placement(f, name)])
      else s
  }

  /** One iteration carried out on the file store, as UpdateStep describes it. */
  method UpdateOne(fs: FileStore, f: string, st: Stamp, fails: set<FileId>, moved: nat, ghost placed: seq<Placement>)
    returns (moved': nat, ghost placed': seq<Placement>)
    requires ValidStamp(st)
    modifies fs
    ensures UpdateState(fs.Snapshot(), moved', placed') == UpdateStep(UpdateState(old(fs.Snapshot()), moved, placed), st, f, fails)
  {
    moved', placed' := moved, placed;
    if IsTxtName(f) {
      var newName := Probe(fs.repository, st);
      if f in fs.extracted && FileId(Extracted, f) !in fails {
        fs.repository := fs.repository[newName := fs.extracted[f]];
        fs.extracted := fs.extracted - {f};
        moved' := moved + 1;
        placed' := placed + [Placement(f, newName)];
      }
    }
  }

  /** The loop over the extracted-text listing. */
  function Update(s0: UpdateState, files: seq<string>, st: Stamp, fails: set<FileId>): UpdateState
    requires ValidStamp(st)
    decreases |files|
  {
    if files == [] then s0
    else UpdateStep(Update(s0, files[..|files| - 1], st, fails), st, files[|files| - 1], fails)
  }

  /**
   * Only the extracted-text folder and the repository change; no existing
   * repository entry is overwritten; a text only leaves its folder; and
   * moved_count is the number of log lines.
   */
  lemma {:induction false} UpdateFrame(fs: Folders, files: seq<string>, st: Stamp, fails: set<FileId>)
    requires ValidStamp(st)
    ensures var r := Update(Start(fs), files, st, fails);
      && r.folders.(extracted := fs.extracted, repository := fs.repository) == fs
      && (forall n :: n in fs.repository ==> n in r.folders.repository && r.folders.repository[n] == fs.repository[n])
      && (forall n :: n in r.folders.extracted ==> n in fs.extracted && r.folders.extracted[n] == fs.extracted[n])
      && |r.placed| == r.moved
      && |r.folders.repository| == |fs.repository| + r.moved
  {
    if files != [] {
      UpdateFrame(fs, files[..|files| - 1], st, fails);
    }
  }

  /**
   * Every new name was free when it was chosen, so the names given in one
   * call are pairwise distinct and absent from the repository before the
   * call, and their counters increase in the order they were given; the
   * repository afterwards holds exactly the old names and these.
   */
  lemma UpdateNames(fs: Folders, files: seq<string>, st: Stamp, fails: set<FileId>)
    requires ValidStamp(st)
    ensures var r := Update(Start(fs), files, st, fails);
      && NoDup(Names(r.placed))
      && (forall k :: 0 <= k < |r.placed| ==> r.placed[k].name !in fs.repository)
      && (forall k :: 0 <= k < |r.placed| ==> IsCandidate(st, r.placed[k].name))
      && (forall n :: n in r.folders.repository <==> n in fs.repository || n in Names(r.placed))
      && Increasing(r.placed, st)
  {
    UpdateNamesFresh(fs, files, st, fails);
    UpdateNamesAreCandidates(fs, files, st, fails);
    UpdateSuffixesIncrease(fs, files, st, fails);
  }

  lemma {:induction false} UpdateNamesFresh(fs: Folders, files: seq<string>, st: Stamp, fails: set<FileId>)
    requires ValidStamp(st)
    ensures var r := Update(Start(fs), files, st, fails);
      && NoDup(Names(r.placed))
      && (forall k :: 0 <= k < |r.placed| ==> r.placed[k].name !in fs.repository)
      && (forall n :: n in r.folders.repository <==> n in fs.repository || n in Names(r.placed))
  {
    if files != [] {
      var init := files[..|files| - 1];
      UpdateNamesFresh(fs, init, st, fails);
      UpdateFrame(fs, init, st, fails);
      var p := Update(Start(fs), init, st, fails);
      var r := Update(Start(fs), files, st, fails);
      if r != p {
        assert r.placed == p.placed + [r.placed[|r.placed| - 1]];
        NamesSnoc(p.placed, r.placed[|r.placed| - 1]);
      }
    }
  }

  lemma {:induction false} UpdateNamesAreCandidates(fs: Folders, files: seq<string>, st: Stamp, fails: set<FileId>)
    requires ValidStamp(st)
    ensures forall k :: 0 <= k < |Update(Start(fs), files, st, fails).placed| ==>
      IsCandidate(st, Update(Start(fs), files, st, fails).placed[k].name)
  {
    if files != [] {
      var init := files[..|files| - 1];
      UpdateNamesAreCandidates(fs, init, st, fails);
      var p := Update(Start(fs), init, st, fails);
      var r := Update(Start(fs), files, st, fails);
      var g := files[|files| - 1];
      if IsTxtName(g) && Movable(p.folders, fails, g) {
        var name := ResolvedName(p.folders.repository, st);
        ResolvedIsCandidate(p.folders.repository, st);
        assert r.placed == p.placed + [Placement(g, name)];
        forall k | 0 <= k < |r.placed|
          ensures IsCandidate(st, r.placed[k].name)
        {
          if k < |p.placed| {
            assert r.placed[k] == p.placed[k];
          }
        }
      } else {
        assert r == p;
      }
    }
  }

  /** Every probe name whose counter is at most the one of name is taken in repo. */
  ghost predicate TakenUpTo(repo: Dir, st: Stamp, name: string) {
    forall i: nat, m: nat :: name == Candidate(st, i) && m <= i ==> Candidate(st, m) in repo
  }

  /** Adding entries keeps probe names taken. */
  lemma TakenGrows(a: Dir, b: Dir, st: Stamp, name: string)
    requires a.Keys <= b.Keys && TakenUpTo(a, st, name)
    ensures TakenUpTo(b, st, name)
  {
  }

  /** Once the resolved name is taken, so is every probe name up to it. */
  lemma ResolvedTaken(repo: Dir, st: Stamp, content: string)
    requires ValidStamp(st)
    ensures var name := ResolvedName(repo, st);
      TakenUpTo(repo[name := content], st, name)
  {
    var name := ResolvedName(repo, st);
    var j: nat :| j <= |repo| && name == Candidate(st, j) && forall i :: 0 <= i < j ==> Candidate(st, i) in repo;
    forall i: nat, m: nat | name == Candidate(st, i) && m <= i
      ensures Candidate(st, m) in repo[name := content]
    {
      CandidateInjective(st, i, j);
    }
  }

  /** Every probe name up to the counter of each name given so far is taken. */
  ghost predicate AllTaken(s: UpdateState, st: Stamp) {
    forall k :: 0 <= k < |s.placed| ==> TakenUpTo(s.folders.repository, st, s.placed[k].name)
  }

  /** Each name given so far has a larger counter than the names given before it. */
  ghost predicate Increasing(placed: seq<Placement>, st: Stamp) {
    forall k, l, i: nat, j: nat ::
      0 <= k < l < |placed| && placed[k].name == Candidate(st, i) && placed[l].name == Candidate(st, j) ==> i < j
  }

  lemma StepKeepsTaken(p: UpdateState, st: Stamp, g: string, fails: set<FileId>)
    requires ValidStamp(st) && AllTaken(p, st)
    ensures AllTaken(UpdateStep(p, st, g, fails), st)
  {
    var r := UpdateStep(p, st, g, fails);
    if r != p {
      var name := ResolvedName(p.folders.repository, st);
      ResolvedTaken(p.folders.repository, st, p.folders.extracted[g]);
      forall k | 0 <= k < |p.placed|
        ensures TakenUpTo(r.folders.repository, st, r.placed[k].name)
      {
        TakenGrows(p.folders.repository, r.folders.repository, st, p.placed[k].name);
      }
    }
  }

  lemma StepKeepsIncreasing(p: UpdateState, st: Stamp, g: string, fails: set<FileId>)
    requires ValidStamp(st) && AllTaken(p, st) && Increasing(p.placed, st)
    ensures Increasing(UpdateStep(p, st, g, fails).placed, st)
  {
    var r := UpdateStep(p, st, g, fails);
    if r != p {
      var name := ResolvedName(p.folders.repository, st);
      assert r.placed == p.placed + [Placement(g, name)];
      forall k, l, i: nat, j: nat |
        0 <= k < l < |r.placed| && r.placed[k].name == Candidate(st, i) && r.placed[l].name == Candidate(st, j)
        ensures i < j
      {
        assert r.placed[k] == p.placed[k];
        if l < |p.placed| {
          assert r.placed[l] == p.placed[l];
        } else {
          assert TakenUpTo(p.folders.repository, st, p.placed[k].name);
          assert Candidate(st, j) !in p.folders.repository;
        }
      }
    }
  }

  /** After a call, every probe name up to the counter of each new name is taken. */
  lemma {:induction false} UpdateTakenUpTo(fs: Folders, files: seq<string>, st: Stamp, fails: set<FileId>)
    requires ValidStamp(st)
    ensures AllTaken(Update(Start(fs), files, st, fails), st)
  {
    if files != [] {
      var init := files[..|files| - 1];
      UpdateTakenUpTo(fs, init, st, fails);
      StepKeepsTaken(Update(Start(fs), init, st, fails), st, files[|files| - 1], fails);
    }
  }

  /**
   * Within one call the new names come in probe order: a name given later
   * has a larger counter than every name given before it.
   */
  lemma {:induction false} UpdateSuffixesIncrease(fs: Folders, files: seq<string>, st: Stamp, fails: set<FileId>)
    requires ValidStamp(st)
    ensures Increasing(Update(Start(fs), files, st, fails).placed, st)
  {
    if files != [] {
      var init := files[..|files| - 1];
      UpdateSuffixesIncrease(fs, init, st, fails);
      UpdateTakenUpTo(fs, init, st, fails);
      StepKeepsIncreasing(Update(Start(fs), init, st, fails), st, files[|files| - 1], fails);
    }
  }

  /**
   * Each log line moved a listed text file whose move could succeed, and
   * the repository entry under the new name holds that file's text.
   */
  lemma {:induction false} UpdateContents(fs: Folders, files: seq<string>, st: Stamp, fails: set<FileId>)
    requires ValidStamp(st)
    ensures var r := Update(Start(fs), files, st, fails);
      forall k :: 0 <= k < |r.placed| ==>
        && r.placed[k].source in files && Movable(fs, fails, r.placed[k].source)
        && r.placed[k].source !in r.folders.extracted
        && r.placed[k].name in r.folders.repository
        && r.folders.repository[r.placed[k].name] == fs.extracted[r.placed[k].source]
  {
    if files != [] {
      var init := files[..|files| - 1];
      UpdateContents(fs, init, st, fails);
      UpdateFrame(fs, init, st, fails);
      var p := Update(Start(fs), init, st, fails);
      var r := Update(Start(fs), files, st, fails);
      forall k | 0 <= k < |p.placed|
        ensures r.placed[k] == p.placed[k] && r.placed[k].name != ResolvedName(p.folders.repository, st)
      {
        assert p.placed[k].name in p.folders.repository;
      }
    }
  }

  /**
   * With distinct listed names, every listed text whose move can succeed
   * is moved, and every other text stays with its content.
   */
  lemma {:induction false} UpdateMovesAll(fs: Folders, files: seq<string>, st: Stamp, fails: set<FileId>)
    requires ValidStamp(st) && NoDup(files)
    ensures var r := Update(Start(fs), files, st, fails);
      forall n :: n in r.folders.extracted <==> n in fs.extracted && !(n in files && Movable(fs, fails, n))
  {
    if files != [] {
      var init := files[..|files| - 1];
      var g := files[|files| - 1];
      assert NoDup(init) && g !in init;
      UpdateMovesAll(fs, init, st, fails);
      UpdateFrame(fs, init, st, fails);
    }
  }

  /** The texts moved in one call: each listed file is moved at most once. */
  function Sources(placed: seq<Placement>): seq<string> {
    seq(|placed|, k requires 0 <= k < |placed| => placed[k].source)
  }

  /** A move appends its text to the sources. */
  lemma SourcesSnoc(placed: seq<Placement>, m: Placement)
    ensures Sources(placed + [m]) == Sources(placed) + [m.source]
  {
  }

  lemma {:induction false} UpdateSourcesDistinct(fs: Folders, files: seq<string>, st: Stamp, fails: set<FileId>)
    requires ValidStamp(st) && NoDup(files)
    ensures NoDup(Sources(Update(Start(fs), files, st, fails).placed))
  {
    if files != [] {
      var init := files[..|files| - 1];
      var g := files[|files| - 1];
      assert NoDup(init) && g !in init;
      UpdateSourcesDistinct(fs, init, st, fails);
      UpdateContents(fs, init, st, fails);
      var p := Update(Start(fs), init, st, fails);
      assert forall k :: 0 <= k < |p.placed| ==> p.placed[k].source in init by {
        assert var q := Update(Start(fs), init, st, fails);
          forall k :: 0 <= k < |q.placed| ==> q.placed[k].source in init && Movable(fs, fails, q.placed[k].source);
      }
      var r := Update(Start(fs), files, st, fails);
      if IsTxtName(g) && Movable(p.folders, fails, g) {
        assert r.placed == p.placed + [Placement(g, ResolvedName(p.folders.repository, st))];
        SourcesSnoc(p.placed, Placement(g, ResolvedName(p.folders.repository, st)));
        assert g !in Sources(p.placed);
      } else {
        assert r == p;
      }
    }
  }
}
