/**
 * The rename loop of main: one pass over the directory's entries that
 * picks each regular file's new name, "<stem>_<n><extension>" in the same
 * directory, and renames it. A claim table maps each tentative name
 * "<stem>_1<extension>" to how many times it has been claimed; the first
 * claim also counts a file already on disk under that name.
 *
 * The pass is specified on values (Decide, Step, Run, Log) and carried out
 * by the method RenamePhotos on a FileSystem object that stands for the
 * disk.
 */
module Planner {
  import opened Wrappers
  import opened Decimal
  import opened Paths

  /** uint32_t, the type of num_files. */
  type Uint32 = n: nat | n < 0x1_0000_0000

  /** num_files += 1 on a uint32_t: wraps from 2^32 - 1 to 0. */
  function Inc32(n: Uint32): Uint32 {
    if n == 0xFFFF_FFFF then 0 else n + 1
  }

  /**
   * A directory entry as the loop sees it: its path, whether its status
   * is a regular file, and the stem its timestamp resolved to.
   */
  datatype Entry = Entry(path: Path, regular: bool, stem: string)

  /**
   * The decision for one renamed entry: the tentative name `base`, whether
   * the disk was found to hold `base` (looked at only on the first claim),
   * the claim count after this claim, and the rename target.
   */
  datatype Plan = Plan(entry: Entry, base: Path, occupied: bool, count: nat, target: Path)

  /** The disk, the claim table new_paths and the counter num_files. */
  datatype State = State(files: set<Path>, claims: map<Path, nat>, numFiles: Uint32)

  /** The state before the loop: the disk as it is, no claims, no files counted. */
  function Initial(files: set<Path>): (s: State)
    ensures s.files == files && s.claims == map[] && s.numFiles == 0
  {
    State(files, map[], 0)
  }

  /** The tentative name: the entry's directory, its stem with "_1", its extension. */
  function BasePath(e: Entry): (p: Path)
    ensures ParentPath(p) == ParentPath(e.path)
  {
    MakePathFromStem(e.path, e.stem + "_1")
  }

  /** The loop renames (and counts) an entry exactly when it is regular and not already named `base`. */
  predicate Renamed(e: Entry) {
    e.regular && BasePath(e) != e.path
  }

  /**
   * The rename target keeps the source's directory and extension, and its
   * stem is the resolved stem followed by "_<count>".
   */
  predicate HasTargetShape(p: Plan) {
    && p.count >= 1
    && ParentPath(p.target) == ParentPath(p.entry.path)
    && FileName(p.target) == p.entry.stem + "_" + ToDecimal(p.count) + Extension(FileName(p.entry.path))
  }

  /**
   * Lines 125-147 for one entry: skip it (None) when it is not a regular
   * file or already has the tentative name; otherwise claim `base`. A new
   * key starts at 1 and goes to 2 if the disk already holds `base`; a key
   * already claimed goes up by one. A count above 1 replaces "_1" by
   * "_<count>", and that name is not looked up again.
   */
  function Decide(s: State, e: Entry): (r: Option<Plan>)
    ensures r.Some? <==> Renamed(e)
    ensures r.Some? ==> r.value.entry == e && r.value.base == BasePath(e)
    ensures r.Some? ==> (r.value.occupied <==> BasePath(e) !in s.claims && BasePath(e) in s.files)
    ensures r.Some? ==> r.value.count == if BasePath(e) in s.claims then s.claims[BasePath(e)] + 1
                                         else if r.value.occupied then 2 else 1
  {
    if !e.regular then None
    else
      var base := BasePath(e);
      if base == e.path then None
      else
        var inserted := base !in s.claims;
        var occupied := inserted && base in s.files;
        var count := (if inserted then 1 else s.claims[base]) + (if !inserted || occupied then 1 else 0);
        var target := if count > 1 then MakePathFromStem(base, e.stem + "_" + ToDecimal(count)) else base;
        Some(Plan(e, base, occupied, count, target))
  }

  /** For a stem without a dot, the decided target is the entry's directory, stem, "_<count>" and extension. */
  lemma TargetShape(s: State, e: Entry)
    requires Renamed(e) && NoDot(e.stem)
    ensures HasTargetShape(Decide(s, e).value)
  {
    var p := Decide(s, e).value;
    SuffixNoDot(e.stem, p.count);
    BaseShape(e);
    if p.count > 1 {
      MakePathFromStemShape(p.base, e.stem + "_" + ToDecimal(p.count));
    }
  }

  /** The tentative name of a dotless stem: the entry's directory, the stem, "_1" and the entry's extension. */
  lemma BaseShape(e: Entry)
    requires NoDot(e.stem)
    ensures ParentPath(BasePath(e)) == ParentPath(e.path)
    ensures FileName(BasePath(e)) == e.stem + "_" + ToDecimal(1) + Extension(FileName(e.path))
    ensures Extension(FileName(BasePath(e))) == Extension(FileName(e.path))
  {
    SuffixNoDot(e.stem, 1);
    MakePathFromStemShape(e.path, e.stem + "_1");
  }

  /** A dotless stem with "_<n>" appended has no dot either; "_1" is "_" followed by to_string(1). */
  lemma SuffixNoDot(stem: string, n: nat)
    requires NoDot(stem)
    ensures NoDot(stem + "_" + ToDecimal(n)) && stem + "_" + ToDecimal(n) != []
    ensures stem + "_" + ToDecimal(1) == stem + "_1"
  {
    var d := ToDecimal(n);
    var r := stem + "_" + d;
    assert ToDecimal(1) == [DigitChar(1)] == "1";
    forall j | 0 <= j < |r| ensures r[j] != '.' {
      if j < |stem| {
        assert r[j] == stem[j];
      } else if j > |stem| {
        assert r[j] == d[j - |stem| - 1];
      }
    }
  }

  /** The disk is consulted only on the first claim: once `base` is claimed, what the disk holds makes no difference. */
  lemma DiskOnlyAtFirstClaim(claims: map<Path, nat>, n: Uint32, files1: set<Path>, files2: set<Path>, e: Entry)
    requires BasePath(e) in claims
    ensures Decide(State(files1, claims, n), e) == Decide(State(files2, claims, n), e)
  {
  }

  /**
   * One iteration: a skipped entry changes nothing; a renamed one moves
   * the source to the target on disk, records the claim count and adds
   * one to the counter.
   */
  function Step(s: State, e: Entry): (r: State)
    ensures !Renamed(e) ==> r == s
    ensures Renamed(e) ==> && r.numFiles == Inc32(s.numFiles)
                           && r.claims.Keys == s.claims.Keys + {BasePath(e)}
    ensures Renamed(e) ==> var p := Decide(s, e).value;
                           && r.files == s.files - {e.path} + {p.target}
                           && r.claims == s.claims[p.base := p.count]
  {
    match Decide(s, e)
    case None => s
    case Some(p) => State(s.files - {e.path} + {p.target}, s.claims[p.base := p.count], Inc32(s.numFiles))
  }

  /** The state after the loop has taken the entries `es` in order. */
  function Run(s: State, es: seq<Entry>): State
    decreases |es|
  {
    if es == [] then s else Step(Run(s, es[..|es| - 1]), es[|es| - 1])
  }

  /** The plans of the renamed entries, in the order the loop made them. */
  function Log(s: State, es: seq<Entry>): seq<Plan>
    decreases |es|
  {
    if es == [] then []
    else
      var before := es[..|es| - 1];
      var last := Decide(Run(s, before), es[|es| - 1]);
      Log(s, before) + if last.Some? then [last.value] else []
  }

  /** How many of the entries the loop renames. */
  function RenamedCount(es: seq<Entry>): nat
    decreases |es|
  {
    if es == [] then 0 else RenamedCount(es[..|es| - 1]) + if Renamed(es[|es| - 1]) then 1 else 0
  }

  /** How many plans claimed `base`. */
  function Claimants(log: seq<Plan>, base: Path): nat
    decreases |log|
  {
    if log == [] then 0 else Claimants(log[..|log| - 1], base) + if log[|log| - 1].base == base then 1 else 0
  }

  /** How many plans claimed `base` and found it on disk. */
  function OnDisk(log: seq<Plan>, base: Path): nat
    decreases |log|
  {
    if log == [] then 0
    else OnDisk(log[..|log| - 1], base) + if log[|log| - 1].base == base && log[|log| - 1].occupied then 1 else 0
  }

  predicate Positive(claims: map<Path, nat>) {
    forall p :: p in claims ==> claims[p] >= 1
  }

  /** k increments of a uint32_t counter starting at n. */
  function AddWrapped(n: Uint32, k: nat): Uint32
    decreases k
  {
    if k == 0 then n else Inc32(AddWrapped(n, k - 1))
  }

  /** One increment wraps modulo 2^32. */
  lemma Inc32IsMod(n: Uint32)
    ensures Inc32(n) == (n + 1) % 0x1_0000_0000
  {
  }

  /** k increments wrap the sum modulo 2^32. */
  lemma {:induction false} AddWrappedIsMod(n: Uint32, k: nat)
    ensures AddWrapped(n, k) == (n + k) % 0x1_0000_0000
    decreases k
  {
    if k > 0 {
      AddWrappedIsMod(n, k - 1);
      var m := AddWrapped(n, k - 1);
      assert m == (n + k - 1) % 0x1_0000_0000;
    }
  }

  /** There is one plan per renamed entry. */
  lemma {:induction false} LogLength(s: State, es: seq<Entry>)
    ensures |Log(s, es)| == RenamedCount(es)
    decreases |es|
  {
    if es != [] {
      LogLength(s, es[..|es| - 1]);
    }
  }

  /** One more iteration, renamed or not, keeps the counter at n plus the renamed so far. */
  lemma CounterAdvance(n: Uint32, k: nat, a: Uint32, b: Uint32, renamed: bool)
    requires a == AddWrapped(n, k)
    requires b == if renamed then Inc32(a) else a
    ensures b == AddWrapped(n, k + if renamed then 1 else 0)
  {
  }

  /** The counter goes up once per renamed entry. */
  lemma {:induction false} RunCounts(s: State, es: seq<Entry>)
    ensures Run(s, es).numFiles == AddWrapped(s.numFiles, RenamedCount(es))
    decreases |es|
  {
    if es != [] {
      var before, e := es[..|es| - 1], es[|es| - 1];
      RunCounts(s, before);
      var mid := Run(s, before);
      assert Run(s, es) == Step(mid, e);
      CounterAdvance(s.numFiles, RenamedCount(before), mid.numFiles, Step(mid, e).numFiles, Renamed(e));
    }
  }

  /**
   * num_files at the end is the number of regular entries not skipped by
   * the equality test, modulo 2^32.
   */
  lemma NumFilesCountsRenamed(files: set<Path>, es: seq<Entry>)
    ensures Run(Initial(files), es).numFiles == RenamedCount(es) % 0x1_0000_0000
  {
    RunCounts(Initial(files), es);
    AddWrappedIsMod(0, RenamedCount(es));
  }

  /** Claims are never withdrawn, counts only go up, and every count stays at least 1. */
  lemma {:induction false} ClaimsGrow(s: State, es: seq<Entry>)
    ensures forall p :: p in s.claims ==> p in Run(s, es).claims && Run(s, es).claims[p] >= s.claims[p]
    ensures Positive(s.claims) ==> Positive(Run(s, es).claims)
    decreases |es|
  {
    if es != [] {
      ClaimsGrow(s, es[..|es| - 1]);
    }
  }

  /** A plan finds its base on disk only as its first claimant, so at most once per base. */
  lemma {:induction false} OnDiskAtMostClaimants(log: seq<Plan>, base: Path)
    ensures OnDisk(log, base) <= Claimants(log, base)
    decreases |log|
  {
    if log != [] {
      OnDiskAtMostClaimants(log[..|log| - 1], base);
    }
  }

  /**
   * Each plan's count, its suffix, is the number of claimants of its base
   * up to and including it, plus one if that base was found on disk; and
   * a plan finds its base on disk only as the base's first claimant.
   */
  predicate CountsConsistent(log: seq<Plan>)
    decreases |log|
  {
    log == [] ||
      var before, p := log[..|log| - 1], log[|log| - 1];
      && CountsConsistent(before)
      && p.count == Claimants(log, p.base) + OnDisk(log, p.base)
      && (p.occupied ==> Claimants(before, p.base) == 0)
  }

  /**
   * The claim table against the plans made so far: a path is a key exactly
   * when some plan claimed it, and its count is the number of claimants
   * plus one if the disk held it at the first claim.
   */
  ghost predicate ClaimTable(claims: map<Path, nat>, log: seq<Plan>) {
    && (forall p :: p in claims <==> Claimants(log, p) > 0)
    && (forall p :: p in claims ==> claims[p] == Claimants(log, p) + OnDisk(log, p))
    && CountsConsistent(log)
  }

  /** One more plan adds one claimant of its base, and one on-disk finding if it found the base on disk. */
  lemma SnocCounts(log: seq<Plan>, p: Plan, q: Path)
    ensures Claimants(log + [p], q) == Claimants(log, q) + (if q == p.base then 1 else 0)
    ensures OnDisk(log + [p], q) == OnDisk(log, q) + (if q == p.base && p.occupied then 1 else 0)
  {
    assert (log + [p])[..|log|] == log;
  }

  /**
   * One claim keeps the table in step with the log: a base already in the
   * table goes up by one without looking at the disk, a new base starts at
   * 1, or at 2 when the disk holds it.
   */
  lemma ClaimStep(claims: map<Path, nat>, log: seq<Plan>, p: Plan)
    requires ClaimTable(claims, log)
    requires p.base in claims ==> !p.occupied && p.count == claims[p.base] + 1
    requires p.base !in claims ==> p.count == if p.occupied then 2 else 1
    ensures ClaimTable(claims[p.base := p.count], log + [p])
  {
    var log' := log + [p];
    forall q ensures Claimants(log', q) == Claimants(log, q) + (if q == p.base then 1 else 0)
      && OnDisk(log', q) == OnDisk(log, q) + (if q == p.base && p.occupied then 1 else 0) {
      SnocCounts(log, p, q);
    }
    OnDiskAtMostClaimants(log, p.base);
    assert log'[..|log'| - 1] == log;
  }

  /**
   * The claim table over a whole run from an empty table, with the count
   * of every plan made on the way.
   */
  lemma {:induction false} ClaimCounting(files: set<Path>, es: seq<Entry>)
    ensures ClaimTable(Run(Initial(files), es).claims, Log(Initial(files), es))
    decreases |es|
  {
    if es != [] {
      var before, e := es[..|es| - 1], es[|es| - 1];
      var s, log := Run(Initial(files), before), Log(Initial(files), before);
      ClaimCounting(files, before);
      if Renamed(e) {
        var p := Decide(s, e).value;
        assert Run(Initial(files), es).claims == s.claims[p.base := p.count];
        assert Log(Initial(files), es) == log + [p];
        ClaimStep(s.claims, log, p);
      } else {
        assert Run(Initial(files), es) == s;
        assert Log(Initial(files), es) == log;
      }
    }
  }

  /**
   * Within one run, the i-th renamed file whose tentative name is P gets
   * suffix i + 1 counting from 0 among P's claimants, plus one if P was on
   * disk when first claimed: the k-th claimant gets "_k", or "_(k+1)" when
   * P already existed.
   */
  lemma {:induction false} SuffixAt(log: seq<Plan>, i: nat)
    requires CountsConsistent(log) && i < |log|
    ensures log[i].count == Claimants(log[..i + 1], log[i].base) + OnDisk(log[..i + 1], log[i].base)
    ensures log[i].occupied ==> Claimants(log[..i], log[i].base) == 0
    decreases |log|
  {
    if i < |log| - 1 {
      var before := log[..|log| - 1];
      SuffixAt(before, i);
      assert before[..i + 1] == log[..i + 1] && before[..i] == log[..i] && before[i] == log[i];
    } else {
      assert log[..i + 1] == log;
    }
  }

  /** The plan claims the tentative name of a renamed entry among `es`, with a positive count. */
  predicate Belongs(p: Plan, es: seq<Entry>) {
    p.entry in es && Renamed(p.entry) && p.count >= 1 && p.base == BasePath(p.entry)
  }

  /** Belonging to a prefix of the entries is belonging to the entries; a plan that belongs can be logged after them. */
  lemma AllBelongSnoc(log: seq<Plan>, before: seq<Entry>, es: seq<Entry>, last: seq<Plan>)
    requires before <= es
    requires forall i :: 0 <= i < |log| ==> Belongs(log[i], before)
    requires forall i :: 0 <= i < |last| ==> Belongs(last[i], es)
    ensures forall i :: 0 <= i < |log + last| ==> Belongs((log + last)[i], es)
  {
    forall i | 0 <= i < |log + last| ensures Belongs((log + last)[i], es) {
      if i < |log| {
        var e := log[i].entry;
        var k :| 0 <= k < |before| && before[k] == e;
        assert es[k] == e;
      } else {
        assert (log + last)[i] == last[i - |log|];
      }
    }
  }

  /** Every plan in the log belongs to a renamed entry of the run and claims that entry's tentative name. */
  lemma {:induction false} LogEntries(s: State, es: seq<Entry>)
    ensures forall i :: 0 <= i < |Log(s, es)| ==> Belongs(Log(s, es)[i], es)
    decreases |es|
  {
    if es != [] {
      var before, e := es[..|es| - 1], es[|es| - 1];
      LogEntries(s, before);
      var d := Decide(Run(s, before), e);
      var last := if d.Some? then [d.value] else [];
      assert Log(s, es) == Log(s, before) + last;
      assert e in es;
      AllBelongSnoc(Log(s, before), before, es, last);
    }
  }

  /**
   * When every stem is free of dots, as formatted stems are, every rename
   * target is the entry's directory, its stem, "_<count>" and its extension.
   */
  lemma {:induction false} LogTargets(s: State, es: seq<Entry>)
    requires forall j :: 0 <= j < |es| ==> NoDot(es[j].stem)
    ensures forall i :: 0 <= i < |Log(s, es)| ==> HasTargetShape(Log(s, es)[i])
    decreases |es|
  {
    if es != [] {
      var before, e := es[..|es| - 1], es[|es| - 1];
      LogTargets(s, before);
      if Renamed(e) {
        TargetShape(Run(s, before), e);
        assert Log(s, es) == Log(s, before) + [Decide(Run(s, before), e).value];
      } else {
        assert Log(s, es) == Log(s, before);
      }
    }
  }

  /** The disk as the loop sees it: exists and rename on a set of paths. */
  class FileSystem {
    var files: set<Path>

    constructor (files: set<Path>)
      ensures this.files == files
    {
      this.files := files;
    }

    /** fs::exists. */
    predicate Exists(p: Path)
      reads this
    {
      p in files
    }

    /** fs::rename: the source is gone and the target is there (replacing any file of that name). */
    method Rename(source: Path, target: Path)
      modifies this
      ensures files == old(files) - {source} + {target}
    {
      files := files - {source} + {target};
    }
  }

  /**
   * The loop of main (lines 122-151) over the entries in iteration order:
   * it leaves the disk, the claim table and the counter exactly as Run
   * says.
   */
  method RenamePhotos(disk: FileSystem, entries: seq<Entry>) returns (numFiles: Uint32, newPaths: map<Path, nat>)
    modifies disk
    ensures State(disk.files, newPaths, numFiles) == Run(Initial(old(disk.files)), entries)
  {
    ghost var initial := Initial(disk.files);
    newPaths := map[];
    numFiles := 0;
    for i := 0 to |entries|
      invariant State(disk.files, newPaths, numFiles) == Run(initial, entries[..i])
    {
      ghost var s := State(disk.files, newPaths, numFiles);
      var entry := entries[i];
      assert entries[..i + 1][..i] == entries[..i];
      assert Run(initial, entries[..i + 1]) == Step(s, entry);
      if !entry.regular {
        continue;
      }
      var stem := entry.stem;
      var newPath := MakePathFromStem(entry.path, stem + "_1");
      if newPath == entry.path {
        continue;
      }
      ghost var p := Decide(s, entry).value;
      // try_emplace(new_path, 1), then it->second += !inserted || fs::exists(new_path)
      var inserted := newPath !in newPaths;
      var count := if inserted then 1 else newPaths[newPath];
      count := count + if !inserted || disk.Exists(newPath) then 1 else 0;
      assert newPath == p.base && count == p.count;
      newPaths := newPaths[newPath := count];
      if count > 1 {
        stem := stem + "_" + ToDecimal(count);
        newPath := MakePathFromStem(newPath, stem);
      }
      assert newPath == p.target;
      disk.Rename(entry.path, newPath);
      numFiles := Inc32(numFiles);
    }
    assert entries[..|entries|] == entries;
  }
}
