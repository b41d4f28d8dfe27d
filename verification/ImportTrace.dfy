/** What the walk over entry files and imports (cambrian-transpiler/src/project.rs)
    does, as the sequence of jobs it takes from its queue. */
module ImportTrace {
  import opened Wrappers
  import opened Sequences

  type Path = string

  /** What reading and parsing gives; an import that does not resolve is `None`. */
  datatype Content = Unreadable | Malformed(errors: nat) | Parsed(imports: seq<Option<Path>>)

  /** Canonical names of the paths that have one, and the contents found at paths. */
  datatype FileSystem = FileSystem(canon: map<Path, Path>, files: map<Path, Content>)

  datatype Kind = Entry | Imported

  datatype Source = Source(path: Path, kind: Kind)

  function Canon(fs: FileSystem, p: Path): Path {
    if p in fs.canon then fs.canon[p] else p
  }

  function Read(fs: FileSystem, p: Path): Content {
    if p in fs.files then fs.files[p] else Unreadable
  }

  ghost predicate Fatal(fs: FileSystem, p: Path) {
    Read(fs, p).Unreadable? || (Read(fs, p).Parsed? && None in Read(fs, p).imports)
  }

  // ---------- the stream of jobs ----------

  function Sources(paths: seq<Path>, kind: Kind): (r: seq<Source>)
    ensures |r| == |paths| && forall i :: 0 <= i < |r| ==> r[i] == Source(paths[i], kind)
  {
    seq(|paths|, i requires 0 <= i < |paths| => Source(paths[i], kind))
  }

  /** Entries come before the extra imports. */
  function Initial(entries: seq<Path>, extra: seq<Path>): seq<Source> {
    Sources(entries, Entry) + Sources(extra, Imported)
  }

  /** The jobs for the resolved imports of a file, in order. */
  ghost function ImportJobs(imports: seq<Option<Path>>): seq<Source> {
    if imports == [] then []
    else ImportJobs(imports[..|imports| - 1])
         + (match imports[|imports| - 1] case Some(p) => [Source(p, Imported)] case None => [])
  }

  ghost function JobsOf(fs: FileSystem, sources: seq<Source>): seq<Source> {
    if sources == [] then []
    else
      var n := |sources| - 1;
      JobsOf(fs, sources[..n]) + (if Read(fs, sources[n].path).Parsed? then ImportJobs(Read(fs, sources[n].path).imports) else [])
  }

  ghost function Canons(fs: FileSystem, done: seq<Source>): set<Path> {
    set s | s in done :: Canon(fs, s.path)
  }

  /** No job in `done` was for the file of `s`. */
  ghost predicate IsNew(fs: FileSystem, done: seq<Source>, s: Source) {
    Canon(fs, s.path) !in Canons(fs, done)
  }

  /** The jobs of `done` that are the first for their file and find it well-formed. */
  ghost function Listed(fs: FileSystem, done: seq<Source>): seq<Source> {
    if done == [] then []
    else
      var n := |done| - 1;
      Listed(fs, done[..n]) + (if IsNew(fs, done[..n], done[n]) && Read(fs, done[n].path).Parsed? then [done[n]] else [])
  }

  /** All jobs that are known once `done` is processed: the initial ones, then the imports of
      the listed files in the order in which these were listed. */
  ghost function Stream(fs: FileSystem, initial: seq<Source>, done: seq<Source>): seq<Source> {
    initial + JobsOf(fs, Listed(fs, done))
  }

  ghost predicate Stops(fs: FileSystem, done: seq<Source>, s: Source) {
    IsNew(fs, done, s) && Fatal(fs, s.path)
  }

  ghost predicate NextIs(fs: FileSystem, initial: seq<Source>, done: seq<Source>, s: Source) {
    |done| < |Stream(fs, initial, done)| && Stream(fs, initial, done)[|done|] == s
  }

  /** `done` can be processed first, in this order, and nothing in it stops the walk. */
  ghost predicate Trace(fs: FileSystem, initial: seq<Source>, done: seq<Source>) {
    done == [] ||
    var n := |done| - 1;
    Trace(fs, initial, done[..n]) && NextIs(fs, initial, done[..n], done[n]) && !Stops(fs, done[..n], done[n])
  }

  /** No job is left after `done`. */
  ghost predicate Complete(fs: FileSystem, initial: seq<Source>, done: seq<Source>) {
    Trace(fs, initial, done) && |done| == |Stream(fs, initial, done)|
  }

  /** The diagnostics that the malformed files of `done` would give without a budget. */
  ghost function Reported(fs: FileSystem, done: seq<Source>): nat {
    if done == [] then 0
    else
      var n := |done| - 1;
      Reported(fs, done[..n])
      + (if IsNew(fs, done[..n], done[n]) && Read(fs, done[n].path).Malformed? then FileReports(Read(fs, done[n].path).errors) else 0)
  }

  /** At most 10000 recovered ones, and one if nothing was recovered. */
  function FileReports(errors: nat): (r: nat)
    ensures r >= 1
  {
    if errors == 0 then 1 else if errors > 10_000 then 10_000 else errors
  }

  // ---------- one step ----------

  lemma {:induction false} JobsSnoc(fs: FileSystem, sources: seq<Source>, s: Source)
    requires Read(fs, s.path).Parsed?
    ensures JobsOf(fs, sources + [s]) == JobsOf(fs, sources) + ImportJobs(Read(fs, s.path).imports)
  {
    assert (sources + [s])[..|sources|] == sources;
  }

  lemma {:induction false} ListedSnoc(fs: FileSystem, done: seq<Source>, s: Source)
    ensures Listed(fs, done + [s]) == Listed(fs, done) + (if IsNew(fs, done, s) && Read(fs, s.path).Parsed? then [s] else [])
    ensures Reported(fs, done + [s]) ==
              Reported(fs, done) + (if IsNew(fs, done, s) && Read(fs, s.path).Malformed? then FileReports(Read(fs, s.path).errors) else 0)
  {
    assert (done + [s])[..|done|] == done;
  }

  lemma {:induction false} TraceSnoc(fs: FileSystem, initial: seq<Source>, done: seq<Source>, s: Source)
    ensures Trace(fs, initial, done + [s]) <==> Trace(fs, initial, done) && NextIs(fs, initial, done, s) && !Stops(fs, done, s)
  {
    assert (done + [s])[..|done|] == done;
  }

  /** What processing `s` puts at the end of the queue. */
  ghost function Added(fs: FileSystem, done: seq<Source>, s: Source): seq<Source> {
    if IsNew(fs, done, s) && Read(fs, s.path).Parsed? then ImportJobs(Read(fs, s.path).imports) else []
  }

  lemma {:induction false} StreamSnoc(fs: FileSystem, initial: seq<Source>, done: seq<Source>, s: Source)
    ensures Stream(fs, initial, done + [s]) == Stream(fs, initial, done) + Added(fs, done, s)
  {
    var before := Listed(fs, done);
    ListedSnoc(fs, done, s);
    if IsNew(fs, done, s) && Read(fs, s.path).Parsed? {
      JobsSnoc(fs, before, s);
    } else {
      assert before + [] == before;
      assert JobsOf(fs, before) + [] == JobsOf(fs, before);
    }
    Associative(initial, JobsOf(fs, before), Added(fs, done, s));
  }

  lemma FirstOff<T>(done: seq<T>, queue: seq<T>, more: seq<T>)
    requires queue != []
    ensures done + queue + more == done + [queue[0]] + (queue[1..] + more)
  {
  }

  lemma {:induction false} StreamStep(fs: FileSystem, initial: seq<Source>, done: seq<Source>, queue: seq<Source>)
    requires Stream(fs, initial, done) == done + queue && queue != []
    ensures NextIs(fs, initial, done, queue[0])
    ensures Stream(fs, initial, done + [queue[0]]) == done + [queue[0]] + (queue[1..] + Added(fs, done, queue[0]))
  {
    StreamSnoc(fs, initial, done, queue[0]);
    FirstOff(done, queue, Added(fs, done, queue[0]));
  }

  /** Taking the first job off the queue and queueing the imports of a file listed for the first time. */
  lemma {:induction false} TraceStep(fs: FileSystem, initial: seq<Source>, done: seq<Source>, queue: seq<Source>)
    requires Trace(fs, initial, done) && Stream(fs, initial, done) == done + queue && queue != []
    ensures NextIs(fs, initial, done, queue[0])
    ensures var s := queue[0];
            && Stream(fs, initial, done + [s]) == done + [s] + (queue[1..] + Added(fs, done, s))
            && (!Stops(fs, done, s) ==> Trace(fs, initial, done + [s]))
  {
    StreamStep(fs, initial, done, queue);
    TraceSnoc(fs, initial, done, queue[0]);
  }

  lemma {:induction false} NewSnoc(fs: FileSystem, done: seq<Source>, s: Source)
    ensures Canons(fs, done + [s]) == Canons(fs, done) + {Canon(fs, s.path)}
  {
    forall t
      ensures t in done + [s] <==> t in done || t == s
    {
    }
  }

  // ---------- there is only one walk ----------

  lemma {:induction false} TracePrefix(fs: FileSystem, initial: seq<Source>, done: seq<Source>, k: nat)
    requires Trace(fs, initial, done) && k <= |done|
    ensures Trace(fs, initial, done[..k])
    decreases |done|
  {
    if k < |done| {
      TracePrefix(fs, initial, done[..|done| - 1], k);
      assert done[..|done| - 1][..k] == done[..k];
    } else {
      assert done[..k] == done;
    }
  }

  lemma {:induction false} TraceAt(fs: FileSystem, initial: seq<Source>, done: seq<Source>, n: nat)
    requires Trace(fs, initial, done) && n < |done|
    ensures Trace(fs, initial, done[..n]) && NextIs(fs, initial, done[..n], done[n]) && !Stops(fs, done[..n], done[n])
  {
    TracePrefix(fs, initial, done, n + 1);
    TraceLast(fs, initial, done[..n + 1]);
    assert done[..n + 1][..n] == done[..n];
  }

  lemma {:induction false} TraceLast(fs: FileSystem, initial: seq<Source>, done: seq<Source>)
    requires Trace(fs, initial, done) && done != []
    ensures var n := |done| - 1;
            Trace(fs, initial, done[..n]) && NextIs(fs, initial, done[..n], done[n]) && !Stops(fs, done[..n], done[n])
  {
  }

  lemma {:induction false} TraceUnique(fs: FileSystem, initial: seq<Source>, a: seq<Source>, b: seq<Source>, k: nat)
    requires Trace(fs, initial, a) && Trace(fs, initial, b) && k <= |a| && k <= |b|
    ensures a[..k] == b[..k]
  {
    if k > 0 {
      TraceUnique(fs, initial, a, b, k - 1);
      TraceAt(fs, initial, a, k - 1);
      TraceAt(fs, initial, b, k - 1);
      SameNext(fs, initial, a[..k - 1], a[k - 1], b[k - 1]);
      TakeOneMore(a, b, k);
    }
  }

  lemma {:induction false} SameNext(fs: FileSystem, initial: seq<Source>, done: seq<Source>, s: Source, t: Source)
    requires NextIs(fs, initial, done, s) && NextIs(fs, initial, done, t)
    ensures s == t
  {
  }

  lemma TakeOneMore<T>(a: seq<T>, b: seq<T>, k: nat)
    requires 0 < k <= |a| && k <= |b| && a[..k - 1] == b[..k - 1] && a[k - 1] == b[k - 1]
    ensures a[..k] == b[..k]
  {
    assert a[..k] == a[..k - 1] + [a[k - 1]];
    assert b[..k] == b[..k - 1] + [b[k - 1]];
  }

  /** A walk goes on the same way from everywhere: once one has come to its end, every other is a part of it. */
  lemma {:induction false} WalkUnique(fs: FileSystem, initial: seq<Source>, a: seq<Source>, b: seq<Source>)
    requires Complete(fs, initial, a) && Trace(fs, initial, b)
    ensures |b| <= |a| && b == a[..|b|] && (|b| == |a| ==> b == a)
  {
    if |a| < |b| {
      TraceUnique(fs, initial, a, b, |a|);
      assert a[..|a|] == a;
      TraceAt(fs, initial, b, |a|);
      assert false;
    }
    TraceUnique(fs, initial, a, b, |b|);
    assert b[..|b|] == b;
  }

  // ---------- what is listed ----------

  lemma {:induction false} ListedWithin(fs: FileSystem, done: seq<Source>)
    ensures forall s :: s in Listed(fs, done) ==> s in done && Read(fs, s.path).Parsed?
    ensures Canons(fs, Listed(fs, done)) <= Canons(fs, done)
  {
    if done != [] {
      ListedWithin(fs, done[..|done| - 1]);
    }
  }

  /** No file is listed twice, under whatever paths it was queued. */
  lemma {:induction false} ListedOnce(fs: FileSystem, done: seq<Source>)
    ensures forall i, j :: 0 <= i < j < |Listed(fs, done)| ==>
                             Canon(fs, Listed(fs, done)[i].path) != Canon(fs, Listed(fs, done)[j].path)
  {
    if done != [] {
      var n := |done| - 1;
      var before := Listed(fs, done[..n]);
      ListedOnce(fs, done[..n]);
      ListedWithin(fs, done[..n]);
      forall i | 0 <= i < |before|
        ensures Canon(fs, before[i].path) in Canons(fs, done[..n])
      {
        assert before[i] in before;
      }
    }
  }

  /** One job for every import, in the order of the imports. */
  lemma {:induction false} ImportJobsAt(imports: seq<Option<Path>>)
    requires None !in imports
    ensures |ImportJobs(imports)| == |imports|
    ensures forall i :: 0 <= i < |imports| ==> ImportJobs(imports)[i] == Source(imports[i].value, Imported)
  {
    if imports != [] {
      var n := |imports| - 1;
      assert imports == imports[..n] + [imports[n]];
      ImportJobsAt(imports[..n]);
      assert imports[n] in imports;
    }
  }

  lemma {:induction false} ImportJobsElements(imports: seq<Option<Path>>, s: Source)
    ensures s in ImportJobs(imports) <==> s.kind == Imported && Some(s.path) in imports
  {
    if imports != [] {
      var n := |imports| - 1;
      ImportJobsElements(imports[..n], s);
      assert imports == imports[..n] + [imports[n]];
    }
  }

  /** Some source in `sources` imports `s`. */
  ghost predicate ImportedBy(fs: FileSystem, sources: seq<Source>, s: Source) {
    exists t :: t in sources && Read(fs, t.path).Parsed? && s in ImportJobs(Read(fs, t.path).imports)
  }

  lemma {:induction false} JobsElements(fs: FileSystem, sources: seq<Source>, s: Source)
    ensures s in JobsOf(fs, sources) <==> ImportedBy(fs, sources, s)
  {
    if sources != [] {
      var n := |sources| - 1;
      JobsElements(fs, sources[..n], s);
      assert sources == sources[..n] + [sources[n]];
      if ImportedBy(fs, sources, s) {
        var t :| t in sources && Read(fs, t.path).Parsed? && s in ImportJobs(Read(fs, t.path).imports);
        assert t == sources[n] || t in sources[..n];
      }
    }
  }

  /** A job is an initial one in its place, or an import of a file listed before it. */
  lemma {:induction false} NextCaused(fs: FileSystem, initial: seq<Source>, done: seq<Source>, s: Source)
    requires NextIs(fs, initial, done, s)
    ensures if |done| < |initial| then s == initial[|done|] else ImportedBy(fs, Listed(fs, done), s) && s.kind == Imported
  {
    if |done| >= |initial| {
      assert s == JobsOf(fs, Listed(fs, done))[|done| - |initial|];
      JobsElements(fs, Listed(fs, done), s);
      var t :| t in Listed(fs, done) && Read(fs, t.path).Parsed? && s in ImportJobs(Read(fs, t.path).imports);
      ImportJobsElements(Read(fs, t.path).imports, s);
    }
  }

  ghost function CanonOf(fs: FileSystem, paths: seq<Path>): set<Path> {
    set p | p in paths :: Canon(fs, p)
  }

  lemma KindAt(fs: FileSystem, entries: seq<Path>, extra: seq<Path>, done: seq<Source>, n: nat)
    requires Trace(fs, Initial(entries, extra), done) && n < |done|
    ensures if n < |entries| then done[n] == Source(entries[n], Entry) else done[n].kind == Imported
  {
    TraceAt(fs, Initial(entries, extra), done, n);
    NextCaused(fs, Initial(entries, extra), done[..n], done[n]);
  }

  /** A listed file is tagged as an entry exactly when some entry path names it, even if an import was queued too. */
  lemma {:induction false} ListedKind(fs: FileSystem, entries: seq<Path>, extra: seq<Path>, done: seq<Source>,
                                      s: Source)
    requires Trace(fs, Initial(entries, extra), done) && s in Listed(fs, done)
    ensures s.kind == Entry <==> Canon(fs, s.path) in CanonOf(fs, entries)
    decreases |done|
  {
    var n := |done| - 1;
    if s in Listed(fs, done[..n]) {
      ListedKind(fs, entries, extra, done[..n], s);
    } else {
      KindAt(fs, entries, extra, done, n);
      if n >= |entries| && Canon(fs, s.path) in CanonOf(fs, entries) {
        var m :| 0 <= m < |entries| && Canon(fs, entries[m]) == Canon(fs, s.path);
        KindAt(fs, entries, extra, done, m);
        assert false;
      }
    }
  }

  /** The first job for the file of `s`. */
  lemma {:induction false} FirstFor(fs: FileSystem, done: seq<Source>, c: Path) returns (n: nat)
    requires c in Canons(fs, done)
    ensures n < |done| && Canon(fs, done[n].path) == c && IsNew(fs, done[..n], done[n])
    decreases |done|
  {
    n := |done| - 1;
    if !IsNew(fs, done[..n], done[n]) || Canon(fs, done[n].path) != c {
      assert done == done[..n] + [done[n]];
      NewSnoc(fs, done[..n], done[n]);
      var k := FirstFor(fs, done[..n], c);
      assert done[..n][..k] == done[..k];
      n := k;
    }
  }

  lemma {:induction false} ListedAt(fs: FileSystem, done: seq<Source>, n: nat)
    requires n < |done| && IsNew(fs, done[..n], done[n]) && Read(fs, done[n].path).Parsed?
    ensures done[n] in Listed(fs, done)
    decreases |done|
  {
    var m := |done| - 1;
    if n < m {
      assert done[..m][..n] == done[..n];
      ListedAt(fs, done[..m], n);
    }
  }

  lemma {:induction false} ReportedAt(fs: FileSystem, done: seq<Source>, n: nat)
    requires n < |done| && IsNew(fs, done[..n], done[n]) && Read(fs, done[n].path).Malformed?
    ensures Reported(fs, done) > 0
    decreases |done|
  {
    var m := |done| - 1;
    if n < m {
      assert done[..m][..n] == done[..n];
      ReportedAt(fs, done[..m], n);
    }
  }

  lemma {:induction false} ReportedFrom(fs: FileSystem, done: seq<Source>) returns (n: nat)
    requires Reported(fs, done) > 0
    ensures n < |done| && Read(fs, done[n].path).Malformed?
    decreases |done|
  {
    n := |done| - 1;
    if Reported(fs, done[..n]) > 0 {
      n := ReportedFrom(fs, done[..n]);
    }
  }

  /** What has been processed is the beginning of what is known. */
  lemma {:induction false} DoneInStream(fs: FileSystem, initial: seq<Source>, done: seq<Source>)
    requires Trace(fs, initial, done)
    ensures |done| <= |Stream(fs, initial, done)| && Stream(fs, initial, done)[..|done|] == done
  {
    if done == [] {
    } else {
      var n := |done| - 1;
      var before := done[..n];
      DoneInStream(fs, initial, before);
      var stream := Stream(fs, initial, before);
      assert stream == before + stream[n..];
      TraceStep(fs, initial, before, stream[n..]);
      assert before + [done[n]] == done;
    }
  }

  /** At the end of the walk everything queued was processed: the initial jobs, then the imports
      of the listed files in the order of the list. The order is breadth-first. */
  lemma {:induction false} CompleteOrder(fs: FileSystem, initial: seq<Source>, done: seq<Source>)
    requires Complete(fs, initial, done)
    ensures done == initial + JobsOf(fs, Listed(fs, done))
  {
    DoneInStream(fs, initial, done);
  }

  /** Every file that was queued is listed, or was found malformed. */
  lemma {:induction false} QueuedHandled(fs: FileSystem, initial: seq<Source>, done: seq<Source>, c: Path)
    requires Trace(fs, initial, done) && c in Canons(fs, done)
    ensures exists s :: s in done && Canon(fs, s.path) == c && !Fatal(fs, s.path)
                        && (s in Listed(fs, done) || Read(fs, s.path).Malformed?)
  {
    var n := FirstFor(fs, done, c);
    TraceAt(fs, initial, done, n);
    if Read(fs, done[n].path).Parsed? {
      ListedAt(fs, done, n);
    }
    assert done[n] in done;
  }
}
