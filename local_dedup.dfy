/**
 * deduplicate_text_files: the .txt files of the extracted-text folder are
 * walked in listing order while a seen_hashes dictionary maps each
 * fingerprint to the first file that had it.  A later file with a known
 * fingerprint is a local duplicate: its text file is deleted and its PDF
 * (stem + ".pdf"), when still in the main folder, is moved to Duplicates.
 */
module LocalDedup {
  import opened Text
  import opened Fingerprint
  import opened FileSystem

  /** The folders, seen_hashes and removed_count during the walk. */
  datatype DedupState = DedupState(folders: Folders, seen: map<string, string>, removed: nat)

  function Start(fs: Folders): DedupState {
    DedupState(fs, map[], 0)
  }

  /**
   * One iteration for the text file f.  A read that fails skips the file.
   * Otherwise a new fingerprint is recorded with f, and a known one makes f
   * a duplicate: its text is deleted and its PDF moved from Main to
   * Duplicates if it is there (an absent PDF is not an error).
   */
  function DedupStep(s: DedupState, f: string, fails: set<FileId>): (r: DedupState)
    ensures forall h :: h in s.seen ==> h in r.seen && r.seen[h] == s.seen[h]
    ensures r.folders.(main := s.folders.main, extracted := s.folders.extracted, duplicates := s.folders.duplicates) == s.folders
    ensures Readable(s.folders, fails, f) && ContentHash(s.folders.extracted[f]) in s.seen ==>
      && r.removed == s.removed + 1 && r.seen == s.seen
      && r.folders.extracted == s.folders.extracted - {f}
      && (PdfName(f) in s.folders.main ==>
            r.folders.main == s.folders.main - {PdfName(f)}
            && r.folders.duplicates == s.folders.duplicates[PdfName(f) := s.folders.main[PdfName(f)]])
      && (PdfName(f) !in s.folders.main ==>
            r.folders.main == s.folders.main && r.folders.duplicates == s.folders.duplicates)
    ensures Readable(s.folders, fails, f) && ContentHash(s.folders.extracted[f]) !in s.seen ==>
      r == s.(seen := s.seen[ContentHash(s.folders.extracted[f]) := f])
    ensures !Readable(s.folders, fails, f) ==> r == s
  {
    if !Readable(s.folders, fails, f) then s
    else
      var h := ContentHash(s.folders.extracted[f]);
      if h in s.seen then
        var fs := s.folders.(extracted := s.folders.extracted - {f});
        var pdf := PdfName(f);
        var fs' := if pdf in fs.main
          then fs.(main := fs.main - {pdf}, duplicates := fs.duplicates[pdf := fs.main[pdf]])
          else fs;
        s.(folders := fs', removed := s.removed + 1)
      else
        s.(seen := s.seen[h := f])
  }

  /** One iteration carried out on the file store, as DedupStep describes it. */
  method DedupOne(fs: FileStore, f: string, seen: map<string, string>, removed: nat, fails: set<FileId>)
    returns (seen': map<string, string>, removed': nat)
    modifies fs
    ensures DedupState(fs.Snapshot(), seen', removed') == DedupStep(DedupState(old(fs.Snapshot()), seen, removed), f, fails)
  {
    seen', removed' := seen, removed;
    if f in fs.extracted && FileId(Extracted, f) !in fails {
      var h := ContentHash(fs.extracted[f]);
      if h in seen {
        fs.extracted := fs.extracted - {f};
        removed' := removed + 1;
        var pdf := PdfName(f);
        if pdf in fs.main {
          fs.duplicates := fs.duplicates[pdf := fs.main[pdf]];
          fs.main := fs.main - {pdf};
        }
      } else {
        seen' := seen[h := f];
      }
    }
  }

  /** The loop over the listed .txt files. */
  function Dedup(s0: DedupState, files: seq<string>, fails: set<FileId>): DedupState
    decreases |files|
  {
    if files == [] then s0
    else DedupStep(Dedup(s0, files[..|files| - 1], fails), files[|files| - 1], fails)
  }

  /** files[i] is readable and no earlier readable file has its fingerprint. */
  predicate IsFirst(fs: Folders, fails: set<FileId>, files: seq<string>, i: nat)
    requires i < |files|
  {
    && Readable(fs, fails, files[i])
    && forall j :: 0 <= j < i && Readable(fs, fails, files[j]) ==> TextHash(fs, files[j]) != TextHash(fs, files[i])
  }

  /** How many of the listed files are readable. */
  function ReadableCount(fs: Folders, fails: set<FileId>, files: seq<string>): (n: nat)
    ensures n <= |files|
  {
    if files == [] then 0
    else ReadableCount(fs, fails, files[..|files| - 1]) + (if Readable(fs, fails, files[|files| - 1]) then 1 else 0)
  }

  /**
   * The walk only deletes listed readable text files (the rest keep their
   * content), only moves PDFs from Main to Duplicates, and leaves Exception,
   * Unique and the repository alone.
   */
  lemma DedupFrame(fs: Folders, files: seq<string>, fails: set<FileId>)
    ensures var r := Dedup(Start(fs), files, fails).folders;
      && (forall n :: n in r.extracted ==> n in fs.extracted && r.extracted[n] == fs.extracted[n])
      && (forall n :: n in fs.extracted && n !in r.extracted ==> n in files && Readable(fs, fails, n))
      && (forall n :: n in r.main ==> n in fs.main && r.main[n] == fs.main[n])
      && (forall n :: n in fs.main && n !in r.main ==> n in r.duplicates && r.duplicates[n] == fs.main[n])
      && r.exception == fs.exception && r.unique == fs.unique && r.repository == fs.repository
  {
    DedupTextFrame(fs, files, fails);
    DedupPdfFrame(fs, files, fails);
  }

  lemma {:induction false} DedupTextFrame(fs: Folders, files: seq<string>, fails: set<FileId>)
    ensures var r := Dedup(Start(fs), files, fails).folders;
      && (forall n :: n in r.extracted ==> n in fs.extracted && r.extracted[n] == fs.extracted[n])
      && (forall n :: n in fs.extracted && n !in r.extracted ==> n in files && Readable(fs, fails, n))
      && r.exception == fs.exception && r.unique == fs.unique && r.repository == fs.repository
  {
    if files != [] {
      var k := |files| - 1;
      DedupTextFrame(fs, files[..k], fails);
      var p := Dedup(Start(fs), files[..k], fails).folders;
      var r := Dedup(Start(fs), files, fails).folders;
      forall n | n in fs.extracted && n !in r.extracted
        ensures n in files && Readable(fs, fails, n)
      {
        if n in p.extracted {
          assert n == files[k];
        } else {
          assert n in files[..k];
        }
      }
    }
  }

  lemma {:induction false} DedupPdfFrame(fs: Folders, files: seq<string>, fails: set<FileId>)
    ensures var r := Dedup(Start(fs), files, fails).folders;
      && (forall n :: n in r.main ==> n in fs.main && r.main[n] == fs.main[n])
      && (forall n :: n in fs.main && n !in r.main ==> n in r.duplicates && r.duplicates[n] == fs.main[n])
  {
    if files != [] {
      DedupPdfFrame(fs, files[..|files| - 1], fails);
    }
  }

  /** The fingerprints in seen_hashes are exactly those of the readable listed files. */
  ghost predicate SeenKeys(fs: Folders, fails: set<FileId>, files: seq<string>, seen: map<string, string>) {
    forall h :: h in seen <==> HashListed(fs, fails, files, h)
  }

  /** Some readable listed file has fingerprint h. */
  ghost predicate HashListed(fs: Folders, fails: set<FileId>, files: seq<string>, h: string) {
    exists i :: 0 <= i < |files| && Readable(fs, fails, files[i]) && TextHash(fs, files[i]) == h
  }

  lemma HashListedSnoc(fs: Folders, fails: set<FileId>, files: seq<string>, h: string)
    requires files != []
    ensures var k := |files| - 1;
      HashListed(fs, fails, files, h) <==>
        HashListed(fs, fails, files[..k], h) || (Readable(fs, fails, files[k]) && TextHash(fs, files[k]) == h)
  {
    var k := |files| - 1;
    if HashListed(fs, fails, files, h) {
      var i :| 0 <= i < |files| && Readable(fs, fails, files[i]) && TextHash(fs, files[i]) == h;
      if i < k {
        assert files[..k][i] == files[i];
      }
    }
    if HashListed(fs, fails, files[..k], h) {
      var i :| 0 <= i < k && Readable(fs, fails, files[..k][i]) && TextHash(fs, files[..k][i]) == h;
      assert files[i] == files[..k][i];
    }
  }

  /** seen_hashes maps each fingerprint to the first readable file that had it. */
  ghost predicate SeenFirst(fs: Folders, fails: set<FileId>, files: seq<string>, seen: map<string, string>) {
    forall h :: h in seen ==> exists i :: 0 <= i < |files| && IsFirst(fs, fails, files, i) && seen[h] == files[i] && TextHash(fs, files[i]) == h
  }

  lemma IsFirstPrefix(fs: Folders, fails: set<FileId>, files: seq<string>, k: nat, i: nat)
    requires i < k <= |files|
    ensures IsFirst(fs, fails, files, i) == IsFirst(fs, fails, files[..k], i)
  {
    assert forall j :: 0 <= j <= i ==> files[j] == files[..k][j];
  }

  /** Facts about the step at the end of a non-empty listing of distinct names. */
  lemma LastStep(fs: Folders, files: seq<string>, fails: set<FileId>)
    requires NoDup(files) && files != []
    ensures var k := |files| - 1;
      var p := Dedup(Start(fs), files[..k], fails);
      && Dedup(Start(fs), files, fails) == DedupStep(p, files[k], fails)
      && files[k] !in files[..k]
      && (files[k] in fs.extracted ==> files[k] in p.folders.extracted && p.folders.extracted[files[k]] == fs.extracted[files[k]])
      && (Readable(p.folders, fails, files[k]) <==> Readable(fs, fails, files[k]))
      && (forall i :: 0 <= i < k ==> files[..k][i] == files[i])
      && (forall i :: 0 <= i < k ==> IsFirst(fs, fails, files, i) == IsFirst(fs, fails, files[..k], i))
  {
    var k := |files| - 1;
    DedupFrame(fs, files[..k], fails);
    forall i | 0 <= i < k
      ensures IsFirst(fs, fails, files, i) == IsFirst(fs, fails, files[..k], i)
    {
      IsFirstPrefix(fs, fails, files, k, i);
    }
  }

  /** seen_hashes ends up holding exactly the fingerprints of the readable files. */
  lemma {:induction false} DedupSeenKeys(fs: Folders, files: seq<string>, fails: set<FileId>)
    requires NoDup(files)
    ensures SeenKeys(fs, fails, files, Dedup(Start(fs), files, fails).seen)
  {
    if files != [] {
      var k := |files| - 1;
      var init := files[..k];
      var g := files[k];
      assert NoDup(init);
      DedupSeenKeys(fs, init, fails);
      LastStep(fs, files, fails);
      var p := Dedup(Start(fs), init, fails);
      var r := Dedup(Start(fs), files, fails);
      if Readable(fs, fails, g) {
        assert Readable(p.folders, fails, g) && TextHash(fs, g) == ContentHash(p.folders.extracted[g]);
        assert r.seen.Keys == p.seen.Keys + {TextHash(fs, g)};
      } else {
        assert r.seen == p.seen;
      }
      forall h' ensures h' in r.seen <==> HashListed(fs, fails, files, h') {
        HashListedSnoc(fs, fails, files, h');
      }
    }
  }

  /** seen_hashes[h] is never overwritten: it ends up naming the first readable file with fingerprint h. */
  lemma {:induction false} DedupSeenFirst(fs: Folders, files: seq<string>, fails: set<FileId>)
    requires NoDup(files)
    ensures SeenFirst(fs, fails, files, Dedup(Start(fs), files, fails).seen)
  {
    if files != [] {
      var k := |files| - 1;
      var init := files[..k];
      var g := files[k];
      assert NoDup(init);
      DedupSeenFirst(fs, init, fails);
      DedupSeenKeys(fs, init, fails);
      LastStep(fs, files, fails);
      var p := Dedup(Start(fs), init, fails);
      var r := Dedup(Start(fs), files, fails);
      forall h' | h' in r.seen
        ensures exists i :: 0 <= i < |files| && IsFirst(fs, fails, files, i) && r.seen[h'] == files[i] && TextHash(fs, files[i]) == h'
      {
        if h' in p.seen {
          var i :| 0 <= i < |init| && IsFirst(fs, fails, init, i) && p.seen[h'] == init[i] && TextHash(fs, init[i]) == h';
          assert files[i] == init[i];
        } else {
          assert Readable(fs, fails, g) && h' == TextHash(fs, g) && r.seen[h'] == g;
          forall j | 0 <= j < k && Readable(fs, fails, files[j])
            ensures TextHash(fs, files[j]) != h'
          {
            assert files[j] == init[j];
          }
          assert IsFirst(fs, fails, files, k);
        }
      }
    }
  }

  /** The last listed file survives its own step exactly when it is the first with its fingerprint. */
  lemma LastSurvivesIffFirst(fs: Folders, files: seq<string>, fails: set<FileId>)
    requires NoDup(files) && files != []
    requires Readable(fs, fails, files[|files| - 1])
    ensures files[|files| - 1] in Dedup(Start(fs), files, fails).folders.extracted
      <==> IsFirst(fs, fails, files, |files| - 1)
  {
    var k := |files| - 1;
    var init := files[..k];
    var g := files[k];
    assert NoDup(init);
    DedupSeenKeys(fs, init, fails);
    LastStep(fs, files, fails);
    var p := Dedup(Start(fs), init, fails);
    assert Readable(p.folders, fails, g) && TextHash(fs, g) == ContentHash(p.folders.extracted[g]);
    if TextHash(fs, g) in p.seen {
      var j :| 0 <= j < k && Readable(fs, fails, init[j]) && TextHash(fs, init[j]) == TextHash(fs, g);
      assert files[j] == init[j];
      assert !IsFirst(fs, fails, files, k);
    } else {
      forall j | 0 <= j < k && Readable(fs, fails, files[j])
        ensures TextHash(fs, files[j]) != TextHash(fs, g)
      {
        assert files[j] == init[j];
      }
      assert IsFirst(fs, fails, files, k);
    }
  }

  /** A step only ever deletes the text file it is about. */
  lemma StepKeepsOthers(p: DedupState, g: string, fails: set<FileId>, n: string)
    requires n != g
    ensures n in DedupStep(p, g, fails).folders.extracted <==> n in p.folders.extracted
  {
  }

  /** First seen wins: a readable listed file survives exactly when no earlier readable file has its fingerprint. */
  lemma {:induction false} FirstSeenWins(fs: Folders, files: seq<string>, fails: set<FileId>)
    requires NoDup(files)
    ensures var r := Dedup(Start(fs), files, fails);
      forall i :: 0 <= i < |files| && Readable(fs, fails, files[i]) ==>
        (files[i] in r.folders.extracted <==> IsFirst(fs, fails, files, i))
  {
    if files != [] {
      var k := |files| - 1;
      var init := files[..k];
      var g := files[k];
      assert NoDup(init);
      FirstSeenWins(fs, init, fails);
      LastStep(fs, files, fails);
      var p := Dedup(Start(fs), init, fails);
      var r := Dedup(Start(fs), files, fails);
      if Readable(fs, fails, g) {
        LastSurvivesIffFirst(fs, files, fails);
      }
      forall i | 0 <= i < k && Readable(fs, fails, files[i])
        ensures files[i] in r.folders.extracted <==> IsFirst(fs, fails, files, i)
      {
        assert files[i] == init[i] && files[i] != g;
        StepKeepsOthers(p, g, fails, files[i]);
      }
    }
  }

  /** removed_count plus the number of fingerprints in seen_hashes is the number of readable files. */
  lemma {:induction false} DedupCount(fs: Folders, files: seq<string>, fails: set<FileId>)
    requires NoDup(files)
    ensures var r := Dedup(Start(fs), files, fails);
      r.removed + |r.seen.Keys| == ReadableCount(fs, fails, files)
  {
    if files != [] {
      var k := |files| - 1;
      var init := files[..k];
      var g := files[k];
      assert NoDup(init);
      DedupCount(fs, init, fails);
      LastStep(fs, files, fails);
      var p := Dedup(Start(fs), init, fails);
      var r := Dedup(Start(fs), files, fails);
      assert ReadableCount(fs, fails, files) == ReadableCount(fs, fails, init) + (if Readable(fs, fails, g) then 1 else 0);
      if Readable(fs, fails, g) {
        assert Readable(p.folders, fails, g) && TextHash(fs, g) == ContentHash(p.folders.extracted[g]);
        if TextHash(fs, g) !in p.seen {
          assert r.seen.Keys == p.seen.Keys + {TextHash(fs, g)};
          assert r.removed == p.removed;
        } else {
          assert r.removed == p.removed + 1 && r.seen == p.seen;
        }
      } else {
        assert r == p;
      }
    }
  }

  /** The distinct fingerprints of the listed files. */
  ghost function Fingerprints(fs: Folders, files: seq<string>): set<string> {
    set f | f in files && f in fs.extracted :: TextHash(fs, f)
  }

  lemma {:induction false} AllReadableCount(fs: Folders, fails: set<FileId>, files: seq<string>)
    requires forall f :: f in files ==> Readable(fs, fails, f)
    ensures ReadableCount(fs, fails, files) == |files|
  {
    if files != [] {
      AllReadableCount(fs, fails, files[..|files| - 1]);
    }
  }

  /**
   * When every listed file can be read, removed_count is the number of
   * files minus the number of distinct fingerprints among them.
   */
  lemma RemovedCount(fs: Folders, files: seq<string>, fails: set<FileId>)
    requires NoDup(files)
    requires forall f :: f in files ==> Readable(fs, fails, f)
    ensures Dedup(Start(fs), files, fails).removed == |files| - |Fingerprints(fs, files)|
  {
    var r := Dedup(Start(fs), files, fails);
    DedupCount(fs, files, fails);
    DedupSeenKeys(fs, files, fails);
    AllReadableCount(fs, fails, files);
    forall h ensures h in r.seen.Keys <==> h in Fingerprints(fs, files) {
      if h in Fingerprints(fs, files) {
        var f :| f in files && f in fs.extracted && TextHash(fs, f) == h;
        var i :| 0 <= i < |files| && files[i] == f;
      }
    }
    assert r.seen.Keys == Fingerprints(fs, files);
  }

  /** No two readable listed files share a fingerprint. */
  predicate CleanBatch(fs: Folders, fails: set<FileId>, files: seq<string>) {
    forall i, j :: 0 <= i < j < |files| && Readable(fs, fails, files[i]) && Readable(fs, fails, files[j]) ==>
      TextHash(fs, files[i]) != TextHash(fs, files[j])
  }

  /** A batch without duplicates is left exactly as it was and nothing is counted as removed. */
  lemma {:induction false} CleanBatchUnchanged(fs: Folders, files: seq<string>, fails: set<FileId>)
    requires NoDup(files) && CleanBatch(fs, fails, files)
    ensures Dedup(Start(fs), files, fails).folders == fs
    ensures Dedup(Start(fs), files, fails).removed == 0
  {
    if files != [] {
      var k := |files| - 1;
      var init := files[..k];
      var g := files[k];
      assert NoDup(init);
      assert CleanBatch(fs, fails, init) by {
        forall i, j | 0 <= i < j < |init| && Readable(fs, fails, init[i]) && Readable(fs, fails, init[j])
          ensures TextHash(fs, init[i]) != TextHash(fs, init[j])
        {
          assert init[i] == files[i] && init[j] == files[j];
        }
      }
      CleanBatchUnchanged(fs, init, fails);
      LastStep(fs, files, fails);
      DedupSeenKeys(fs, init, fails);
      var p := Dedup(Start(fs), init, fails);
      if Readable(fs, fails, g) {
        forall j | 0 <= j < |init| && Readable(fs, fails, init[j])
          ensures TextHash(fs, init[j]) != TextHash(fs, g)
        {
          assert files[j] == init[j];
        }
      }
    }
  }

  /** Two different surviving listed files never share a fingerprint. */
  lemma SurvivorPairDistinct(fs: Folders, files: seq<string>, fails: set<FileId>, x: string, y: string)
    requires NoDup(files) && x in files && y in files && x != y
    requires var r := Dedup(Start(fs), files, fails).folders;
      Readable(r, fails, x) && Readable(r, fails, y)
    ensures var r := Dedup(Start(fs), files, fails).folders;
      TextHash(r, x) != TextHash(r, y)
  {
    var r := Dedup(Start(fs), files, fails).folders;
    FirstSeenWins(fs, files, fails);
    DedupFrame(fs, files, fails);
    var i :| 0 <= i < |files| && files[i] == x;
    var j :| 0 <= j < |files| && files[j] == y;
    assert Readable(fs, fails, x) && Readable(fs, fails, y);
    assert IsFirst(fs, fails, files, i) && IsFirst(fs, fails, files, j);
    assert TextHash(r, x) == TextHash(fs, x) && TextHash(r, y) == TextHash(fs, y);
    if i < j {
      assert TextHash(fs, files[i]) != TextHash(fs, files[j]);
    } else {
      assert TextHash(fs, files[j]) != TextHash(fs, files[i]);
    }
  }

  /**
   * De-duplication is idempotent: walking again over any listing of the
   * surviving files (same failures) removes nothing and changes nothing.
   */
  lemma DedupIdempotent(fs: Folders, files: seq<string>, again: seq<string>, fails: set<FileId>)
    requires NoDup(files) && NoDup(again)
    requires forall n :: n in again ==> n in files
    ensures var r := Dedup(Start(fs), files, fails).folders;
      && Dedup(Start(r), again, fails).folders == r
      && Dedup(Start(r), again, fails).removed == 0
  {
    var r := Dedup(Start(fs), files, fails).folders;
    forall a, b | 0 <= a < b < |again| && Readable(r, fails, again[a]) && Readable(r, fails, again[b])
      ensures TextHash(r, again[a]) != TextHash(r, again[b])
    {
      SurvivorPairDistinct(fs, files, fails, again[a], again[b]);
    }
    CleanBatchUnchanged(r, again, fails);
  }
}
