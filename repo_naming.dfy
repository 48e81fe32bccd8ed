/**
 * The file names update_repository gives to texts it moves into the
 * repository: INVC_<DDMMYYYY>_<HHMMSS>_<Mon_yy>.txt, and when that name is
 * taken, base_name.replace(".txt", "_<count>.txt") for count = 1, 2, ...
 * until a name is free.
 */
module RepoNaming {
  import opened Text
  import opened FileSystem

  /** The three strftime results, computed once per call (date, time, "%b_%y"). */
  datatype Stamp = Stamp(date: string, time: string, monthYear: string)

  /** base_name without its ".txt". */
  function Prefix(st: Stamp): string {
    "INVC_" + st.date + "_" + st.time + "_" + st.monthYear
  }

  /** base_name. */
  function BaseName(st: Stamp): (r: string)
    ensures |r| >= 4 && r[|r| - 4..] == ".txt"
  {
    Prefix(st) + ".txt"
  }

  /** str.replace: every non-overlapping occurrence of pat, scanning left to right, becomes repl. */
  function ReplaceAll(s: string, pat: string, repl: string): string
    requires pat != []
    decreases |s|
  {
    if |s| < |pat| then s
    else if s[..|pat|] == pat then repl + ReplaceAll(s[|pat|..], pat, repl)
    else [s[0]] + ReplaceAll(s[1..], pat, repl)
  }

  /** pat starts at position i of s. */
  predicate OccursAt(s: string, pat: string, i: nat) {
    i + |pat| <= |s| && s[i..i + |pat|] == pat
  }

  /** ".txt" starts at position i of s. */
  predicate TxtAt(s: string, i: nat) {
    OccursAt(s, ".txt", i)
  }

  /** ".txt" occurs in base_name only as its extension. */
  predicate ValidStamp(st: Stamp) {
    var b := BaseName(st);
    forall i: nat :: i < |b| - 4 ==> !TxtAt(b, i)
  }

  /** The n-th name the probe tries: base_name, then the "_n" variants. */
  function Candidate(st: Stamp, n: nat): string {
    if n == 0 then BaseName(st)
    else ReplaceAll(BaseName(st), ".txt", "_" + NatToString(n) + ".txt")
  }

  /** name is one of the names the probe can produce for st. */
  ghost predicate IsCandidate(st: Stamp, name: string) {
    exists c: nat :: name == Candidate(st, c)
  }

  /** Replacing a pattern that occurs only at the very end of s replaces just that end. */
  lemma {:induction false} ReplaceAtEndOnly(s: string, pat: string, repl: string)
    requires pat != [] && |s| >= |pat| && s[|s| - |pat|..] == pat
    requires forall i: nat :: i < |s| - |pat| ==> !OccursAt(s, pat, i)
    ensures ReplaceAll(s, pat, repl) == s[..|s| - |pat|] + repl
    decreases |s|
  {
    if |s| == |pat| {
      assert s[..|pat|] == pat;
      assert s[|pat|..] == [];
    } else {
      var t := s[1..];
      ReplaceSkipsHead(s, pat, repl);
      assert t[|t| - |pat|..] == pat;
      NoOccurrenceInTail(s, pat);
      ReplaceAtEndOnly(t, pat, repl);
      assert [s[0]] + t[..|t| - |pat|] == s[..|s| - |pat|];
    }
  }

  /** When pat does not start s, str.replace keeps the first character. */
  lemma ReplaceSkipsHead(s: string, pat: string, repl: string)
    requires pat != [] && |s| > |pat| && !OccursAt(s, pat, 0)
    ensures ReplaceAll(s, pat, repl) == [s[0]] + ReplaceAll(s[1..], pat, repl)
  {
    assert s[0..|pat|] == s[..|pat|];
  }

  /** Dropping the first character keeps pat out of every position before the end. */
  lemma NoOccurrenceInTail(s: string, pat: string)
    requires |s| > |pat|
    requires forall i: nat :: i < |s| - |pat| ==> !OccursAt(s, pat, i)
    ensures forall i: nat :: i < |s| - 1 - |pat| ==> !OccursAt(s[1..], pat, i)
  {
    var t := s[1..];
    forall i: nat | i < |t| - |pat| ensures !OccursAt(t, pat, i) {
      assert !OccursAt(s, pat, i + 1);
      assert t[i..i + |pat|] == s[i + 1..i + 1 + |pat|];
    }
  }

  /** Every probe name is the prefix, an optional "_n", and ".txt". */
  lemma CandidateShape(st: Stamp, n: nat)
    requires ValidStamp(st)
    ensures n == 0 ==> Candidate(st, n) == Prefix(st) + ".txt"
    ensures n > 0 ==> Candidate(st, n) == Prefix(st) + "_" + NatToString(n) + ".txt"
  {
    if n > 0 {
      var b := BaseName(st);
      forall i: nat | i < |b| - 4 ensures !OccursAt(b, ".txt", i) {
        assert !TxtAt(b, i);
      }
      ReplaceAtEndOnly(b, ".txt", "_" + NatToString(n) + ".txt");
      assert b[..|b| - 4] == Prefix(st);
    }
  }

  /** Different counters give different names, so the probe never tries a name twice. */
  lemma CandidateInjective(st: Stamp, m: nat, n: nat)
    requires ValidStamp(st)
    ensures Candidate(st, m) == Candidate(st, n) ==> m == n
  {
    if Candidate(st, m) == Candidate(st, n) {
      CandidateShape(st, m);
      CandidateShape(st, n);
      var p := Prefix(st);
      if m > 0 && n > 0 {
        var a, b := Candidate(st, m), Candidate(st, n);
        assert a[|p| + 1..|a| - 4] == NatToString(m);
        assert b[|p| + 1..|b| - 4] == NatToString(n);
        NatToStringInjective(m, n);
      }
    }
  }

  /** With strftime tokens that contain no dot, base_name has ".txt" only at its end. */
  lemma DotFreeStampIsValid(st: Stamp)
    requires '.' !in st.date && '.' !in st.time && '.' !in st.monthYear
    ensures ValidStamp(st)
  {
    var b := BaseName(st);
    var p := Prefix(st);
    assert '.' !in p;
    forall i: nat | i < |b| - 4 ensures !TxtAt(b, i) {
      assert b[i] == p[i];
      assert b[i..i + 4][0] == b[i];
    }
  }

  /** The candidate names 0 .. n-1. */
  function Tried(st: Stamp, n: nat): set<string> {
    set i: nat | i < n :: Candidate(st, i)
  }

  /** The probe's first n names are n different names. */
  lemma {:induction false} TriedCount(st: Stamp, n: nat)
    requires ValidStamp(st)
    ensures |Tried(st, n)| == n
  {
    if n > 0 {
      TriedCount(st, n - 1);
      var last := Candidate(st, n - 1);
      forall i: nat | i < n - 1 ensures Candidate(st, i) != last {
        CandidateInjective(st, i, n - 1);
      }
      assert Tried(st, n) == Tried(st, n - 1) + {last};
    }
  }

  lemma {:induction false} SubsetSize<T>(a: set<T>, b: set<T>)
    requires a <= b
    ensures |a| <= |b|
    decreases a
  {
    if a != {} {
      var x :| x in a;
      SubsetSize(a - {x}, b - {x});
    }
  }

  /** A finite repository can hold at most |repo| of the probe names: the probe loop ends. */
  lemma ProbeBound(repo: Dir, st: Stamp, n: nat)
    requires ValidStamp(st)
    requires forall i :: 0 <= i < n ==> Candidate(st, i) in repo
    ensures n <= |repo|
  {
    TriedCount(st, n);
    SubsetSize(Tried(st, n), repo.Keys);
  }

  /** The counter value of the first free candidate at or after from. */
  function FreeIndex(repo: Dir, st: Stamp, from: nat): (k: nat)
    requires ValidStamp(st)
    requires forall i :: 0 <= i < from ==> Candidate(st, i) in repo
    ensures from <= k <= |repo|
    ensures Candidate(st, k) !in repo
    ensures forall i :: 0 <= i < k ==> Candidate(st, i) in repo
    decreases |repo| - from
  {
    ProbeBound(repo, st, from);
    if Candidate(st, from) !in repo then from
    else
      ProbeBound(repo, st, from + 1);
      FreeIndex(repo, st, from + 1)
  }

  /**
   * The name the probe settles on: absent from the repository, while
   * every earlier name of the probe sequence is present.
   */
  function ResolvedName(repo: Dir, st: Stamp): (name: string)
    requires ValidStamp(st)
    ensures name !in repo
    ensures exists k: nat :: k <= |repo| && name == Candidate(st, k) && forall i :: 0 <= i < k ==> Candidate(st, i) in repo
  {
    var k := FreeIndex(repo, st, 0);
    Candidate(st, k)
  }

  /**
   * The probe's answer is determined: a free candidate whose predecessors
   * are all taken is the resolved name.
   */
  lemma FirstFreeIsResolved(repo: Dir, st: Stamp, k: nat)
    requires ValidStamp(st)
    requires Candidate(st, k) !in repo && forall i :: 0 <= i < k ==> Candidate(st, i) in repo
    ensures ResolvedName(repo, st) == Candidate(st, k)
  {
    var j := FreeIndex(repo, st, 0);
  }

  /**
   * The probe of update_repository: base_name, then base_name with ".txt"
   * replaced by "_<count>.txt" for count = 1, 2, ... while the name exists.
   * The loop ends because a finite repository holds only finitely many of
   * these distinct names.
   */
  method Probe(repo: Dir, st: Stamp) returns (name: string)
    requires ValidStamp(st)
    ensures name !in repo
    ensures name == ResolvedName(repo, st)
  {
    var baseName := BaseName(st);
    name := baseName;
    var count := 1;
    while name in repo
      invariant count >= 1 && name == Candidate(st, count - 1)
      invariant forall i :: 0 <= i < count - 1 ==> Candidate(st, i) in repo
      decreases |repo| - count + 1
    {
      ProbeBound(repo, st, count);
      name := ReplaceAll(baseName, ".txt", "_" + NatToString(count) + ".txt");
      count := count + 1;
    }
    FirstFreeIsResolved(repo, st, count - 1);
  }

  lemma ResolvedIsCandidate(repo: Dir, st: Stamp)
    requires ValidStamp(st)
    ensures IsCandidate(st, ResolvedName(repo, st))
  {
    assert ResolvedName(repo, st) == Candidate(st, FreeIndex(repo, st, 0));
  }
}
