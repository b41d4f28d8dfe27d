/** The walk over entry files and their imports (cambrian-transpiler/src/project.rs)
    as a first-in first-out worklist over an abstract file system. */
module ImportWalk {
  import opened Wrappers
  import opened Graphs
  import opened ImportTrace

  datatype Outcome = Loaded(sources: seq<Source>) | IoError(path: Path) | ImportError(path: Path) | Diagnostics(count: nat)

  // ---------- the import graph ----------

  /** Canonical files that the file at `p` imports. */
  ghost function Targets(fs: FileSystem, p: Path): set<Path> {
    if Read(fs, p).Parsed? then
      var imports := Read(fs, p).imports;
      set i | 0 <= i < |imports| && imports[i].Some? :: Canon(fs, imports[i].value)
    else {}
  }

  ghost function ImportEdges(fs: FileSystem): set<(Path, Path)> {
    set p, c | p in fs.files && c in Targets(fs, p) :: (Canon(fs, p), c)
  }

  ghost function Roots(fs: FileSystem, entries: seq<Path>, extra: seq<Path>): set<Path> {
    CanonOf(fs, entries) + CanonOf(fs, extra)
  }

  /** `p` is an entry, an extra import, or imported from one through parsed files. */
  ghost predicate Needed(fs: FileSystem, entries: seq<Path>, extra: seq<Path>, p: Path) {
    HasRoot(ImportEdges(fs), Roots(fs, entries, extra), Canon(fs, p))
  }

  ghost predicate SameFile(fs: FileSystem, p: Path, q: Path) {
    && Fatal(fs, p) == Fatal(fs, q)
    && Read(fs, p).Malformed? == Read(fs, q).Malformed?
    && Targets(fs, p) == Targets(fs, q)
  }

  /** All paths to one file show the same file and the same imports. */
  ghost predicate Coherent(fs: FileSystem) {
    forall p, q {:trigger SameFile(fs, p, q)} :: Canon(fs, p) == Canon(fs, q) ==> SameFile(fs, p, q)
  }

  lemma TargetsOfJobs(fs: FileSystem, p: Path, s: Source)
    requires Read(fs, p).Parsed? && s in ImportJobs(Read(fs, p).imports)
    ensures Canon(fs, s.path) in Targets(fs, p)
  {
    ImportJobsElements(Read(fs, p).imports, s);
  }

  lemma JobsOfTargets(fs: FileSystem, p: Path, c: Path)
    requires c in Targets(fs, p)
    ensures Read(fs, p).Parsed? && exists s :: s in ImportJobs(Read(fs, p).imports) && Canon(fs, s.path) == c
  {
    var imports := Read(fs, p).imports;
    var i :| 0 <= i < |imports| && imports[i].Some? && Canon(fs, imports[i].value) == c;
    ImportJobsElements(imports, Source(imports[i].value, Imported));
  }

  // ---------- only needed files are processed ----------

  lemma InitialNeeded(fs: FileSystem, entries: seq<Path>, extra: seq<Path>, n: nat)
    requires n < |Initial(entries, extra)|
    ensures Canon(fs, Initial(entries, extra)[n].path) in Roots(fs, entries, extra)
  {
    if n < |entries| {
      assert entries[n] in entries;
    } else {
      assert extra[n - |entries|] in extra;
    }
  }

  lemma ImportNeeded(fs: FileSystem, entries: seq<Path>, extra: seq<Path>, t: Source, s: Source)
    requires Needed(fs, entries, extra, t.path) && Read(fs, t.path).Parsed? && s in ImportJobs(Read(fs, t.path).imports)
    ensures Needed(fs, entries, extra, s.path)
  {
    var E, roots := ImportEdges(fs), Roots(fs, entries, extra);
    TargetsOfJobs(fs, t.path, s);
    assert (Canon(fs, t.path), Canon(fs, s.path)) in E;
    var r :| r in roots && Reach(E, r, Canon(fs, t.path));
    ReachStep(E, r, Canon(fs, t.path), Canon(fs, s.path));
  }

  ghost predicate AllNeeded(fs: FileSystem, entries: seq<Path>, extra: seq<Path>, done: seq<Source>) {
    forall t :: t in done ==> Needed(fs, entries, extra, t.path)
  }

  lemma AllNeededSnoc(fs: FileSystem, entries: seq<Path>, extra: seq<Path>, done: seq<Source>, s: Source)
    requires AllNeeded(fs, entries, extra, done) && Needed(fs, entries, extra, s.path)
    ensures AllNeeded(fs, entries, extra, done + [s])
  {
  }

  lemma NextNeeded(fs: FileSystem, entries: seq<Path>, extra: seq<Path>, done: seq<Source>, s: Source)
    requires NextIs(fs, Initial(entries, extra), done, s)
    requires AllNeeded(fs, entries, extra, done)
    ensures Needed(fs, entries, extra, s.path)
  {
    NextCaused(fs, Initial(entries, extra), done, s);
    if |done| < |Initial(entries, extra)| {
      InitialNeeded(fs, entries, extra, |done|);
      ReachRefl(ImportEdges(fs), Canon(fs, s.path));
    } else {
      var t :| t in Listed(fs, done) && Read(fs, t.path).Parsed? && s in ImportJobs(Read(fs, t.path).imports);
      ListedWithin(fs, done);
      ImportNeeded(fs, entries, extra, t, s);
    }
  }

  lemma {:induction false} TraceNeeded(fs: FileSystem, entries: seq<Path>, extra: seq<Path>, done: seq<Source>)
    requires Trace(fs, Initial(entries, extra), done)
    ensures AllNeeded(fs, entries, extra, done)
  {
    if done != [] {
      var n := |done| - 1;
      TraceNeeded(fs, entries, extra, done[..n]);
      NextNeeded(fs, entries, extra, done[..n], done[n]);
      AllNeededSnoc(fs, entries, extra, done[..n], done[n]);
      assert done == done[..n] + [done[n]];
    }
  }

  // ---------- termination ----------

  ghost function Universe(fs: FileSystem, entries: seq<Path>, extra: seq<Path>): set<Path> {
    Roots(fs, entries, extra) + set e | e in ImportEdges(fs) :: e.1
  }

  lemma InUniverse(fs: FileSystem, entries: seq<Path>, extra: seq<Path>, p: Path)
    requires Needed(fs, entries, extra, p)
    ensures Canon(fs, p) in Universe(fs, entries, extra)
  {
    var E, roots := ImportEdges(fs), Roots(fs, entries, extra);
    var r :| r in roots && Reach(E, r, Canon(fs, p));
    forall x, y | (x, y) in E
      ensures y in Universe(fs, entries, extra)
    {
      assert (x, y).1 == y;
    }
    ClosedReach(E, Universe(fs, entries, extra), r, Canon(fs, p));
  }

  // ---------- what a complete walk has processed ----------

  ghost predicate SomeFatal(fs: FileSystem, entries: seq<Path>, extra: seq<Path>) {
    exists p :: Needed(fs, entries, extra, p) && Fatal(fs, p)
  }

  ghost predicate SomeMalformed(fs: FileSystem, entries: seq<Path>, extra: seq<Path>) {
    exists p :: Needed(fs, entries, extra, p) && Read(fs, p).Malformed?
  }

  /** `sources` lists the file at `p`, or that file is malformed. */
  ghost predicate Handled(fs: FileSystem, sources: seq<Source>, p: Path) {
    Read(fs, p).Malformed? || exists s :: s in sources && Canon(fs, s.path) == Canon(fs, p)
  }

  lemma {:induction false} JobProcessed(fs: FileSystem, initial: seq<Source>, done: seq<Source>, t: Source, s: Source)
    requires Complete(fs, initial, done) && t in Listed(fs, done)
    requires Read(fs, t.path).Parsed? && s in ImportJobs(Read(fs, t.path).imports)
    ensures s in done
  {
    CompleteOrder(fs, initial, done);
    assert ImportedBy(fs, Listed(fs, done), s);
    JobsElements(fs, Listed(fs, done), s);
  }

  /** The imports of a processed file are processed. */
  lemma {:induction false} ProcessedClosed(fs: FileSystem, initial: seq<Source>, done: seq<Source>)
    requires Coherent(fs) && Complete(fs, initial, done)
    ensures Closed(ImportEdges(fs), Canons(fs, done))
  {
    forall c, d | (c, d) in ImportEdges(fs) && c in Canons(fs, done)
      ensures d in Canons(fs, done)
    {
      var q :| q in fs.files && d in Targets(fs, q) && Canon(fs, q) == c;
      EdgeProcessed(fs, initial, done, q, d);
    }
  }

  lemma {:induction false} EdgeProcessed(fs: FileSystem, initial: seq<Source>, done: seq<Source>, q: Path, d: Path)
    requires Coherent(fs) && Complete(fs, initial, done) && Canon(fs, q) in Canons(fs, done) && d in Targets(fs, q)
    ensures d in Canons(fs, done)
  {
    var n := FirstFor(fs, done, Canon(fs, q));
    assert SameFile(fs, done[n].path, q);
    JobsOfTargets(fs, done[n].path, d);
    var s :| s in ImportJobs(Read(fs, done[n].path).imports) && Canon(fs, s.path) == d;
    ListedAt(fs, done, n);
    JobProcessed(fs, initial, done, done[n], s);
  }

  lemma {:induction false} RootsProcessed(fs: FileSystem, entries: seq<Path>, extra: seq<Path>, done: seq<Source>)
    requires Complete(fs, Initial(entries, extra), done)
    ensures Roots(fs, entries, extra) <= Canons(fs, done)
  {
    forall c | c in Roots(fs, entries, extra)
      ensures c in Canons(fs, done)
    {
      if i :| 0 <= i < |entries| && Canon(fs, entries[i]) == c {
        InitialProcessed(fs, Initial(entries, extra), done, i);
      } else {
        var i :| 0 <= i < |extra| && Canon(fs, extra[i]) == c;
        InitialProcessed(fs, Initial(entries, extra), done, |entries| + i);
      }
    }
  }

  lemma {:induction false} InitialProcessed(fs: FileSystem, initial: seq<Source>, done: seq<Source>, n: nat)
    requires Complete(fs, initial, done) && n < |initial|
    ensures Canon(fs, initial[n].path) in Canons(fs, done)
  {
    CompleteOrder(fs, initial, done);
    assert done[n] == initial[n];
    assert done[n] in done;
  }

  lemma {:induction false} NeededProcessed(fs: FileSystem, entries: seq<Path>, extra: seq<Path>,
                                           done: seq<Source>, p: Path)
    requires Coherent(fs) && Complete(fs, Initial(entries, extra), done) && Needed(fs, entries, extra, p)
    ensures Canon(fs, p) in Canons(fs, done)
  {
    RootsProcessed(fs, entries, extra, done);
    ProcessedClosed(fs, Initial(entries, extra), done);
    var r :| r in Roots(fs, entries, extra) && Reach(ImportEdges(fs), r, Canon(fs, p));
    ClosedReach(ImportEdges(fs), Canons(fs, done), r, Canon(fs, p));
  }

  /** Every needed file is listed or malformed, and none is fatal, if all paths to a file agree about it. */
  lemma {:induction false} NeededHandled(fs: FileSystem, entries: seq<Path>, extra: seq<Path>,
                                         done: seq<Source>, p: Path)
    requires Coherent(fs) && Complete(fs, Initial(entries, extra), done) && Needed(fs, entries, extra, p)
    ensures !Fatal(fs, p) && Handled(fs, Listed(fs, done), p)
    ensures Read(fs, p).Malformed? ==> Reported(fs, done) > 0
  {
    NeededProcessed(fs, entries, extra, done, p);
    var n := FirstFor(fs, done, Canon(fs, p));
    TraceAt(fs, Initial(entries, extra), done, n);
    assert SameFile(fs, done[n].path, p);
    if Read(fs, p).Malformed? {
      ReportedAt(fs, done, n);
    } else {
      ListedAt(fs, done, n);
    }
  }

  lemma {:induction false} ReportsNeeded(fs: FileSystem, entries: seq<Path>, extra: seq<Path>, done: seq<Source>)
    requires Trace(fs, Initial(entries, extra), done) && Reported(fs, done) > 0
    ensures SomeMalformed(fs, entries, extra)
  {
    var n := ReportedFrom(fs, done);
    TraceNeeded(fs, entries, extra, done);
    assert done[n] in done;
  }

  // ---------- the method ----------

  function MinNat(a: nat, b: nat): nat {
    if a < b then a else b
  }

  /** Diagnostics recovered from a malformed file within a budget. */
  function Recovered(errors: nat, budget: nat): nat {
    MinNat(errors, MinNat(budget, 10_000))
  }

  method QueueImports(imports: seq<Option<Path>>, queue0: seq<Source>) returns (ok: bool, queue: seq<Source>)
    ensures ok <==> None !in imports
    ensures ok ==> queue == queue0 + ImportJobs(imports)
    ensures ok ==> |queue| == |queue0| + |imports|
                   && forall i :: 0 <= i < |imports| ==> queue[|queue0| + i] == Source(imports[i].value, Imported)
  {
    queue := queue0;
    for i := 0 to |imports|
      invariant None !in imports[..i] && queue == queue0 + ImportJobs(imports[..i])
    {
      if imports[i].None? {
        return false, queue;
      }
      assert imports[..i + 1][..i] == imports[..i];
      queue := queue + [Source(imports[i].value, Imported)];
    }
    ok := true;
    assert imports[..|imports|] == imports;
    ImportJobsAt(imports);
  }

  /** After the jobs in `done` were processed. */
  ghost predicate WalkInv(fs: FileSystem, initial: seq<Source>, done: seq<Source>, queue: seq<Source>, seen: set<Path>,
                          sources: seq<Source>, diags: nat, maxErrors: nat) {
    && Trace(fs, initial, done)
    && Stream(fs, initial, done) == done + queue
    && seen == Canons(fs, done)
    && sources == Listed(fs, done)
    && diags == MinNat(maxErrors, Reported(fs, done))
  }

  lemma {:induction false} WalkStep(fs: FileSystem, initial: seq<Source>, done: seq<Source>,
                                    queue: seq<Source>, seen: set<Path>,
                                    sources: seq<Source>, diags: nat, maxErrors: nat)
    requires WalkInv(fs, initial, done, queue, seen, sources, diags, maxErrors) && queue != [] && !Stops(fs, done, queue[0])
    ensures var s := queue[0];
            WalkInv(fs, initial, done + [s], queue[1..] + Added(fs, done, s), Canons(fs, done) + {Canon(fs, s.path)},
                    Listed(fs, done + [s]), MinNat(maxErrors, Reported(fs, done + [s])), maxErrors)
  {
    TraceStep(fs, initial, done, queue);
    NewSnoc(fs, done, queue[0]);
  }

  /** The error says which file failed and how. */
  ghost predicate IsFailure(fs: FileSystem, p: Path, r: Outcome) {
    r == if Read(fs, p).Unreadable? then IoError(p) else ImportError(p)
  }

  /** A file seen for the first time: read it, queue its imports, list it. */
  method Visit(fs: FileSystem, ghost initial: seq<Source>, ghost done: seq<Source>, seen: set<Path>,
               queue0: seq<Source>,
               sources0: seq<Source>, diags0: nat, maxErrors: nat)
    returns (failure: Option<Outcome>, queue: seq<Source>, sources: seq<Source>, diags: nat)
    requires WalkInv(fs, initial, done, queue0, seen, sources0, diags0, maxErrors)
    requires queue0 != [] && Canon(fs, queue0[0].path) !in seen
    ensures failure.Some? <==> Fatal(fs, queue0[0].path)
    ensures failure.Some? ==> IsFailure(fs, queue0[0].path, failure.value)
    ensures failure.None? ==>
              WalkInv(fs, initial, done + [queue0[0]], queue, seen + {Canon(fs, queue0[0].path)}, sources, diags, maxErrors)
  {
    var s := queue0[0];
    failure, queue, sources, diags := None, queue0[1..], sources0, diags0;
    ListedSnoc(fs, done, s);
    match Read(fs, s.path)
    case Unreadable =>
      failure := Some(IoError(s.path));
    case Parsed(imports) =>
      var ok;
      ok, queue := QueueImports(imports, queue0[1..]);
      if !ok {
        failure := Some(ImportError(s.path));
      } else {
        sources := sources0 + [s];
        WalkStep(fs, initial, done, queue0, seen, sources0, diags0, maxErrors);
      }
    case Malformed(errors) =>
      if diags < maxErrors {
        var recovered := Recovered(errors, maxErrors - diags);
        diags := diags + (if recovered == 0 then 1 else recovered);
      }
      assert queue0[1..] + Added(fs, done, s) == queue0[1..];
      WalkStep(fs, initial, done, queue0, seen, sources0, diags0, maxErrors);
  }

  lemma {:induction false} SkipStep(fs: FileSystem, initial: seq<Source>, done: seq<Source>,
                                    queue: seq<Source>, seen: set<Path>,
                                    sources: seq<Source>, diags: nat, maxErrors: nat)
    requires WalkInv(fs, initial, done, queue, seen, sources, diags, maxErrors)
    requires queue != [] && Canon(fs, queue[0].path) in seen
    ensures WalkInv(fs, initial, done + [queue[0]], queue[1..], seen, sources, diags, maxErrors)
  {
    var s := queue[0];
    WalkStep(fs, initial, done, queue, seen, sources, diags, maxErrors);
    ListedSnoc(fs, done, s);
    assert queue[1..] + Added(fs, done, s) == queue[1..];
  }

  lemma {:induction false} HeadNeeded(fs: FileSystem, entries: seq<Path>, extra: seq<Path>, done: seq<Source>,
                                      queue: seq<Source>)
    requires Trace(fs, Initial(entries, extra), done) && Stream(fs, Initial(entries, extra), done) == done + queue && queue != []
    ensures NextIs(fs, Initial(entries, extra), done, queue[0])
    ensures Needed(fs, entries, extra, queue[0].path) && Canon(fs, queue[0].path) in Universe(fs, entries, extra)
  {
    StreamStep(fs, Initial(entries, extra), done, queue);
    TraceNeeded(fs, entries, extra, done);
    NextNeeded(fs, entries, extra, done, queue[0]);
    InUniverse(fs, entries, extra, queue[0].path);
  }

  /** Each file once, only needed and parsed ones, tagged as entries exactly when an entry path names them, in
      breadth-first order: the initial files, then the imports of the listed ones in the order of the list. */
  ghost predicate IsList(fs: FileSystem, entries: seq<Path>, extra: seq<Path>, sources: seq<Source>) {
    && (forall i, j :: 0 <= i < j < |sources| ==> Canon(fs, sources[i].path) != Canon(fs, sources[j].path))
    && (forall s :: s in sources ==> Read(fs, s.path).Parsed? && Needed(fs, entries, extra, s.path))
    && (forall s :: s in sources ==> (s.kind == Entry <==> Canon(fs, s.path) in CanonOf(fs, entries)))
    && sources == Listed(fs, Initial(entries, extra) + JobsOf(fs, sources))
  }

  /** The walk fails, reports or lists exactly by what is needed. */
  ghost predicate IsExact(fs: FileSystem, entries: seq<Path>, extra: seq<Path>, maxErrors: nat, r: Outcome) {
    && (r.IoError? || r.ImportError? <==> SomeFatal(fs, entries, extra))
    && (r.Diagnostics? <==> !SomeFatal(fs, entries, extra) && SomeMalformed(fs, entries, extra) && maxErrors > 0)
    && (r.Loaded? ==> forall p :: Needed(fs, entries, extra, p) ==> Handled(fs, r.sources, p))
  }

  /** What the walk answers, `done` being the jobs it processed before it answered. */
  ghost predicate Answers(fs: FileSystem, initial: seq<Source>, maxErrors: nat, done: seq<Source>, r: Outcome) {
    match r
    case IoError(p) => StoppedAt(fs, initial, done, p) && IsFailure(fs, p, r)
    case ImportError(p) => StoppedAt(fs, initial, done, p) && IsFailure(fs, p, r)
    case Diagnostics(count) =>
      Complete(fs, initial, done) && count == MinNat(maxErrors, Reported(fs, done)) > 0
    case Loaded(sources) =>
      Complete(fs, initial, done) && sources == Listed(fs, done) && MinNat(maxErrors, Reported(fs, done)) == 0
  }

  ghost predicate StoppedAt(fs: FileSystem, initial: seq<Source>, done: seq<Source>, p: Path) {
    Trace(fs, initial, done) && exists s: Source :: s.path == p && NextIs(fs, initial, done, s) && Stops(fs, done, s)
  }

  method LoadWithImports(fs: FileSystem, entries: seq<Path>, extra: seq<Path>, maxErrors: nat)
    returns (r: Outcome, ghost done: seq<Source>)
    ensures r.IoError? || r.ImportError? ==>
              Needed(fs, entries, extra, r.path) && Fatal(fs, r.path) && IsFailure(fs, r.path, r)
    ensures r.Diagnostics? ==> 0 < r.count <= maxErrors && SomeMalformed(fs, entries, extra)
    ensures r.Loaded? ==> IsList(fs, entries, extra, r.sources)
    ensures Coherent(fs) ==> IsExact(fs, entries, extra, maxErrors, r)
    ensures Answers(fs, Initial(entries, extra), maxErrors, done, r)
  {
    r, done := Walk(fs, entries, extra, maxErrors);
    if r.IoError? || r.ImportError? {
      FailureIsNeeded(fs, entries, extra, maxErrors, done, r);
    } else if r.Loaded? {
      LoadedList(fs, entries, extra, maxErrors, done, r);
    } else {
      ReportsNeeded(fs, entries, extra, done);
    }
    if Coherent(fs) {
      AnswerExact(fs, entries, extra, maxErrors, done, r);
    }
  }

  /** The loop. */
  method Walk(fs: FileSystem, entries: seq<Path>, extra: seq<Path>, maxErrors: nat)
    returns (r: Outcome, ghost done: seq<Source>)
    ensures Answers(fs, Initial(entries, extra), maxErrors, done, r)
  {
    ghost var initial := Initial(entries, extra);
    var queue := Initial(entries, extra);
    var seen: set<Path> := {};
    var sources: seq<Source> := [];
    var diags: nat := 0;
    done := [];
    while queue != []
      invariant WalkInv(fs, initial, done, queue, seen, sources, diags, maxErrors)
      decreases Universe(fs, entries, extra) - seen, |queue|
    {
      var s := queue[0];
      HeadNeeded(fs, entries, extra, done, queue);
      if Canon(fs, s.path) in seen {
        SkipStep(fs, initial, done, queue, seen, sources, diags, maxErrors);
        queue := queue[1..];
      } else {
        var failure;
        failure, queue, sources, diags := Visit(fs, initial, done, seen, queue, sources, diags, maxErrors);
        if failure.Some? {
          assert StoppedAt(fs, initial, done, s.path);
          return failure.value, done;
        }
        seen := seen + {Canon(fs, s.path)};
      }
      done := done + [s];
    }
    r := if diags > 0 then Diagnostics(diags) else Loaded(sources);
  }

  // ---------- what the answer means ----------

  /** There is only one answer. */
  lemma {:induction false} AnswerUnique(fs: FileSystem, initial: seq<Source>, maxErrors: nat,
                                        a: seq<Source>, ra: Outcome, b: seq<Source>, rb: Outcome)
    requires Answers(fs, initial, maxErrors, a, ra) && Answers(fs, initial, maxErrors, b, rb)
    ensures a == b && ra == rb
  {
    if |a| <= |b| {
      LastOne(fs, initial, maxErrors, a, ra, b, rb);
    } else {
      LastOne(fs, initial, maxErrors, b, rb, a, ra);
    }
  }

  lemma {:induction false} LastOne(fs: FileSystem, initial: seq<Source>, maxErrors: nat,
                                   a: seq<Source>, ra: Outcome, b: seq<Source>, rb: Outcome)
    requires Answers(fs, initial, maxErrors, a, ra) && Answers(fs, initial, maxErrors, b, rb) && |a| <= |b|
    ensures a == b && ra == rb
  {
    TraceUnique(fs, initial, a, b, |a|);
    assert a[..|a|] == a;
    if |a| < |b| {
      TraceAt(fs, initial, b, |a|);
      assert false;
    }
    assert b[..|b|] == b;
  }

  /** A failure names a needed file that is unreadable or has an unresolved import. */
  lemma {:induction false} FailureIsNeeded(fs: FileSystem, entries: seq<Path>, extra: seq<Path>,
                                           maxErrors: nat, done: seq<Source>, r: Outcome)
    requires Answers(fs, Initial(entries, extra), maxErrors, done, r) && (r.IoError? || r.ImportError?)
    ensures Needed(fs, entries, extra, r.path) && Fatal(fs, r.path) && IsFailure(fs, r.path, r)
  {
    var s: Source :| s.path == r.path && NextIs(fs, Initial(entries, extra), done, s) && Stops(fs, done, s);
    TraceNeeded(fs, entries, extra, done);
    NextNeeded(fs, entries, extra, done, s);
  }

  /** Whatever the paths to a file say, the answer is such a list. */
  lemma {:induction false} LoadedList(fs: FileSystem, entries: seq<Path>, extra: seq<Path>, maxErrors: nat,
                                      done: seq<Source>, r: Outcome)
    requires Answers(fs, Initial(entries, extra), maxErrors, done, r) && r.Loaded?
    ensures IsList(fs, entries, extra, r.sources)
  {
    ListedOnce(fs, done);
    ListedWithin(fs, done);
    TraceNeeded(fs, entries, extra, done);
    forall s | s in r.sources
      ensures s.kind == Entry <==> Canon(fs, s.path) in CanonOf(fs, entries)
    {
      ListedKind(fs, entries, extra, done, s);
    }
    CompleteOrder(fs, Initial(entries, extra), done);
  }

  /** When all paths to a file agree about it, the walk fails, reports, or lists exactly by what is needed. */
  lemma {:induction false} AnswerExact(fs: FileSystem, entries: seq<Path>, extra: seq<Path>, maxErrors: nat,
                                       done: seq<Source>, r: Outcome)
    requires Coherent(fs) && Answers(fs, Initial(entries, extra), maxErrors, done, r)
    ensures IsExact(fs, entries, extra, maxErrors, r)
  {
    if r.IoError? || r.ImportError? {
      FailureIsNeeded(fs, entries, extra, maxErrors, done, r);
    } else {
      forall p | Needed(fs, entries, extra, p)
        ensures !Fatal(fs, p) && Handled(fs, Listed(fs, done), p)
        ensures Read(fs, p).Malformed? ==> Reported(fs, done) > 0
      {
        NeededHandled(fs, entries, extra, done, p);
      }
      if Reported(fs, done) > 0 {
        ReportsNeeded(fs, entries, extra, done);
      }
    }
  }
}
