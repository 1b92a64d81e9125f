/** The file-level pipeline of `main` in `audio2json.go`: de-duplicating the input paths, the
    fail-fast existence check, routing each file by duration to direct or chunked transcription,
    and draining the per-file results into a basename-keyed map. The worker pool and its channel
    are modelled by draining the results in an arbitrary order. */
module Pipeline {
  import opened Wrappers
  import opened Types
  import opened Chunks
  import Transcribe
  import opened Json
  import opened Text

  // ---------------------------------------------------------------------------------------------
  // uniqueFiles
  // ---------------------------------------------------------------------------------------------

  /** No element occurs twice. */
  predicate Distinct(s: seq<string>) {
    forall i, j :: 0 <= i < j < |s| ==> s[i] != s[j]
  }

  /** Where `x` first occurs in a prefix is where it first occurs in the whole sequence. */
  lemma {:induction false} FirstIndexInPrefix(s: seq<string>, k: nat, x: string)
    requires k <= |s| && x in s[..k]
    ensures FirstIndex(s, x) == FirstIndex(s[..k], x)
  {
    if s[0] != x {
      assert s[..k][1..] == s[1..][..k - 1];
      FirstIndexInPrefix(s[1..], k - 1, x);
    }
  }

  /** Where `x` first occurs when a prefix does not hold it. */
  lemma {:induction false} FirstIndexAfterPrefix(s: seq<string>, k: nat, x: string)
    requires k < |s| && s[k] == x && x !in s[..k]
    ensures FirstIndex(s, x) == k
  {
    if k > 0 {
      assert s[0] != x by { assert s[0] == s[..k][0]; }
      assert s[1..][..k - 1] == s[..k][1..];
      FirstIndexAfterPrefix(s[1..], k - 1, x);
    }
  }

  /** The elements of `u` appear in the order of their first occurrences in `files`. */
  predicate InFirstOccurrenceOrder(u: seq<string>, files: seq<string>)
    requires forall f :: f in u ==> f in files
  {
    forall i, j :: 0 <= i < j < |u| ==> FirstIndex(files, u[i]) < FirstIndex(files, u[j])
  }

  /** `uniqueFiles`: the distinct paths of `files`, each kept at its first occurrence, in the
      order of those first occurrences. */
  function Unique(files: seq<string>): (u: seq<string>)
    ensures Distinct(u)
    ensures forall f :: f in u <==> f in files
    ensures InFirstOccurrenceOrder(u, files)
    decreases |files|
  {
    if |files| == 0 then []
    else
      var n := |files| - 1;
      var u := Unique(files[..n]);
      ExtendUnique(files, u);
      if files[n] in u then u else u + [files[n]]
  }

  /** One step of `Unique`: keeping the last path of `files` only when the de-duplicated prefix
      lacks it keeps the three properties of the result. */
  lemma ExtendUnique(files: seq<string>, u: seq<string>)
    requires |files| > 0
    requires Distinct(u) && forall g :: g in u <==> g in files[..|files| - 1]
    requires InFirstOccurrenceOrder(u, files[..|files| - 1])
    ensures var v := if files[|files| - 1] in u then u else u + [files[|files| - 1]];
            && Distinct(v)
            && (forall g :: g in v <==> g in files)
            && InFirstOccurrenceOrder(v, files)
  {
    var n := |files| - 1;
    var prefix, f := files[..n], files[n];
    assert forall g :: g in files <==> g in prefix || g == f by {
      assert files == prefix + [f];
    }
    forall i | 0 <= i < |u|
      ensures u[i] in prefix && FirstIndex(files, u[i]) == FirstIndex(prefix, u[i]) < n
    {
      assert u[i] in u;
      FirstIndexInPrefix(files, n, u[i]);
    }
    if f !in u {
      var v := u + [f];
      assert forall g :: g in v <==> g in u || g == f;
      assert Distinct(v) by {
        forall i, j | 0 <= i < j < |v|
          ensures v[i] != v[j]
        {
          assert v[i] == u[i];
          if j < |u| { assert v[j] == u[j]; }
        }
      }
      assert InFirstOccurrenceOrder(v, files) by {
        FirstIndexAfterPrefix(files, n, f);
        forall i, j | 0 <= i < j < |v|
          ensures FirstIndex(files, v[i]) < FirstIndex(files, v[j])
        {
          assert v[i] == u[i];
          if j < |u| { assert v[j] == u[j]; }
        }
      }
    }
  }

  /** Go's loop, with the `seen` map as a set: it computes `Unique`. */
  method UniqueFiles(files: seq<string>) returns (unique: seq<string>)
    ensures unique == Unique(files)
  {
    var seen: set<string> := {};
    unique := [];
    for k := 0 to |files|
      invariant unique == Unique(files[..k])
      invariant seen == set f | f in unique
    {
      var f := files[k];
      assert files[..k + 1][..k] == files[..k];
      if f !in seen {
        seen := seen + {f};
        unique := unique + [f];
      }
    }
    assert files[..|files|] == files;
  }

  /** A sequence without duplicates is its own de-duplication. */
  lemma {:induction false} UniqueOfDistinct(s: seq<string>)
    requires Distinct(s)
    ensures Unique(s) == s
  {
    if |s| > 0 {
      var n := |s| - 1;
      var prefix := s[..n];
      assert Distinct(prefix) by {
        assert forall i :: 0 <= i < n ==> prefix[i] == s[i];
      }
      assert Unique(s) == prefix + [s[n]] by {
        UniqueOfDistinct(prefix);
        assert s[n] !in prefix;
      }
      assert s == prefix + [s[n]];
    }
  }

  /** De-duplicating twice is de-duplicating once. */
  lemma UniqueIdempotent(files: seq<string>)
    ensures Unique(Unique(files)) == Unique(files)
  {
    UniqueOfDistinct(Unique(files));
  }

  // ---------------------------------------------------------------------------------------------
  // The existence check
  // ---------------------------------------------------------------------------------------------

  /** The first path `present` rejects (for `os.Stat` reporting that it does not exist), if any;
      the program stops at that path with "file not found". */
  function FirstMissing(files: seq<string>, present: string -> bool): (m: Option<string>)
    ensures m.None? <==> forall f :: f in files ==> present(f)
    ensures m.Some? ==> m.value in files && !present(m.value)
                        && forall j :: 0 <= j < FirstIndex(files, m.value) ==> present(files[j])
  {
    if |files| == 0 then None
    else if !present(files[0]) then Some(files[0])
    else
      var m := FirstMissing(files[1..], present);
      assert forall f :: f in files <==> f == files[0] || f in files[1..];
      m
  }

  // ---------------------------------------------------------------------------------------------
  // Basenames
  // ---------------------------------------------------------------------------------------------

  /** Drops the trailing slashes. */
  function TrimTrailingSlashes(p: string): (r: string)
    ensures |r| <= |p| && r == p[..|r|]
    ensures |r| > 0 ==> r[|r| - 1] != '/'
    ensures forall i :: |r| <= i < |p| ==> p[i] == '/'
  {
    if |p| > 0 && p[|p| - 1] == '/' then TrimTrailingSlashes(p[..|p| - 1]) else p
  }

  /** The part after the last slash: a slash-free suffix that is the whole string or follows a slash. */
  function AfterLastSlash(p: string): (r: string)
    ensures |r| <= |p| && r == p[|p| - |r|..]
    ensures '/' !in r
    ensures |r| < |p| ==> p[|p| - |r| - 1] == '/'
  {
    if |p| == 0 then p
    else if p[|p| - 1] == '/' then []
    else AfterLastSlash(p[..|p| - 1]) + [p[|p| - 1]]
  }

  /** `filepath.Base` on slash-separated paths: "." for the empty path, "/" for a path of
      slashes only, otherwise the last element after trailing slashes are dropped. */
  function Basename(p: string): (b: string)
    ensures b != []
    ensures b == "/" || '/' !in b
  {
    if p == "" then "."
    else
      var q := TrimTrailingSlashes(p);
      if q == "" then "/" else AfterLastSlash(q)
  }

  /** The basename of `dir/name` is `name` when `name` is a non-empty element without slashes. */
  lemma BasenameOfJoin(dir: string, name: string)
    requires name != [] && '/' !in name
    ensures Basename(dir + "/" + name) == name
  {
    var p := dir + "/" + name;
    assert p[|p| - 1] == name[|name| - 1];
    assert TrimTrailingSlashes(p) == p;
    var r := AfterLastSlash(p);
    assert p[|p| - |name|..] == name;
    assert p[|p| - |name| - 1] == '/';
  }

  // ---------------------------------------------------------------------------------------------
  // One file
  // ---------------------------------------------------------------------------------------------

  /** What the outside world does for one file: the probed duration (or the ffprobe failure),
      the reply of a whole-file transcription, and what happens to each chunk of it. */
  datatype FileEnv = FileEnv(probe: Result<real, string>, direct: Reply, chunks: nat -> ChunkRun)

  /** What a file worker sends on the results channel. */
  datatype FileResult = FileResult(name: string, text: Option<string>, err: Option<Error>)

  /** `transcribeFile`: the transcription's error, a nil-text error when it returned neither,
      otherwise its text. The reply has a text exactly when it has no error. */
  function TranscribeFile(file: string, reply: Reply): (r: Reply)
    ensures WellFormed(r)
    ensures reply.err.Some? ==> r == Reply(None, reply.err)
    ensures r.text.Some? ==> reply.err.None? && r.text == reply.text
    ensures reply.err.None? && reply.text.None? ==> r.err == Some(NilText(file))
    ensures reply.err.None? && reply.text.Some? ==> r == reply
  {
    if reply.err.Some? then Reply(None, reply.err)
    else if reply.text.None? then Reply(None, Some(NilText(file)))
    else reply
  }

  /** One file worker: probe the duration, then transcribe the whole file when it is at most
      15 seconds long and in chunks otherwise. Every file yields exactly one result, under its
      basename, with a text exactly when it has no error. */
  function ProcessFile(path: string, env: FileEnv): (r: FileResult)
    ensures r.name == Basename(path)
    ensures r.text.Some? <==> r.err.None?
    ensures env.probe.Failure? ==> r.text.None? && r.err == Some(ProbeFailed(env.probe.error))
    ensures env.probe.Success? && env.probe.value <= ChunkDuration
            ==> Reply(r.text, r.err) == TranscribeFile(path, env.direct)
    ensures env.probe.Success? && env.probe.value > ChunkDuration
            ==> Reply(r.text, r.err) == TranscribeInChunks(env.probe.value, env.chunks)
  {
    var name := Basename(path);
    match env.probe
    case Failure(cause) => FileResult(name, None, Some(ProbeFailed(cause)))
    case Success(d) =>
      var reply := if d <= ChunkDuration then TranscribeFile(path, env.direct)
                   else TranscribeInChunks(d, env.chunks);
      FileResult(name, reply.text, reply.err)
  }

  /** A file of at most 15 seconds is never chunked: what its chunks would do is irrelevant. */
  lemma ShortFileNotChunked(path: string, env: FileEnv, chunks: nat -> ChunkRun)
    requires env.probe.Success? && env.probe.value <= ChunkDuration
    ensures ProcessFile(path, env) == ProcessFile(path, env.(chunks := chunks))
  {
  }

  /** A file longer than 15 seconds is never transcribed whole. */
  lemma LongFileOnlyChunked(path: string, env: FileEnv, direct: Reply)
    requires env.probe.Success? && env.probe.value > ChunkDuration
    ensures ProcessFile(path, env) == ProcessFile(path, env.(direct := direct))
  {
  }

  // ---------------------------------------------------------------------------------------------
  // Draining the results channel
  // ---------------------------------------------------------------------------------------------

  /** `k` is the last position of `results` that carries `name`. */
  ghost predicate LastWith(results: seq<FileResult>, name: string, k: int) {
    && 0 <= k < |results|
    && results[k].name == name
    && forall j :: k < j < |results| ==> results[j].name != name
  }

  /** The names of the results. */
  function Names(results: seq<FileResult>): set<string>
  {
    set k | 0 <= k < |results| :: results[k].name
  }

  /** The last position of a name in a prefix stays its last position when a result with
      another name is appended. */
  lemma LastWithExtends(results: seq<FileResult>)
    requires |results| > 0
    ensures forall name, k :: LastWith(results[..|results| - 1], name, k) && name != results[|results| - 1].name
                              ==> LastWith(results, name, k)
    ensures LastWith(results, results[|results| - 1].name, |results| - 1)
    ensures Names(results) == Names(results[..|results| - 1]) + {results[|results| - 1].name}
  {
    var n := |results| - 1;
    assert forall k :: 0 <= k < n ==> results[..n][k] == results[k];
  }

  /** Writing each drained result into the map in turn (`results[res.filename] = res.text`):
      one key per name, holding the text of the last result drained under that name. */
  function Drain(results: seq<FileResult>): (m: map<string, Option<string>>)
    ensures m.Keys == Names(results)
    ensures forall name :: name in m ==> exists k :: LastWith(results, name, k) && m[name] == results[k].text
  {
    if |results| == 0 then map[]
    else
      var n := |results| - 1;
      LastWithExtends(results);
      Drain(results[..n])[results[n].name := results[n].text]
  }

  // ---------------------------------------------------------------------------------------------
  // The whole run
  // ---------------------------------------------------------------------------------------------

  /** How a run ends: aborted at a missing file, or with the basename -> text map. */
  datatype RunOutcome = Aborted(missing: string) | Completed(output: map<string, Option<string>>)

  /** One result per distinct file, in the order of the files. */
  function Results(files: seq<string>, env: string -> FileEnv): (rs: seq<FileResult>)
    ensures |rs| == |files|
    ensures forall i :: 0 <= i < |files| ==> rs[i] == ProcessFile(files[i], env(files[i]))
  {
    seq(|files|, i requires 0 <= i < |files| => ProcessFile(files[i], env(files[i])))
  }

  /** The results as the channel delivers them: `order` is the order in which the workers finished. */
  function Drained(rs: seq<FileResult>, order: seq<nat>): (d: seq<FileResult>)
    requires forall k :: 0 <= k < |order| ==> order[k] < |rs|
    ensures |d| == |order|
    ensures forall k :: 0 <= k < |order| ==> d[k] == rs[order[k]]
  {
    seq(|order|, k requires 0 <= k < |order| => rs[order[k]])
  }

  /** Every drained result is named after one of the input paths. */
  lemma DrainedNamesFromPaths(paths: seq<string>, env: string -> FileEnv, order: seq<nat>, name: string)
    requires IsPermutation(order, |Unique(paths)|)
    requires name in Names(Drained(Results(Unique(paths), env), order))
    ensures exists p :: p in paths && Basename(p) == name
  {
    var files := Unique(paths);
    var d := Drained(Results(files, env), order);
    var k :| 0 <= k < |d| && d[k].name == name;
    assert files[order[k]] in paths;
  }

  /** Every input path's basename is the name of some drained result. */
  lemma PathsAmongDrainedNames(paths: seq<string>, env: string -> FileEnv, order: seq<nat>, p: string)
    requires IsPermutation(order, |Unique(paths)|)
    requires p in paths
    ensures Basename(p) in Names(Drained(Results(Unique(paths), env), order))
  {
    var files := Unique(paths);
    var d := Drained(Results(files, env), order);
    PermutationMembers(order, |files|);
    assert p in files;
    var i :| 0 <= i < |files| && files[i] == p;
    assert i in order;
    var k :| 0 <= k < |order| && order[k] == i;
    assert d[k].name == Basename(p);
  }

  /** The map holds the basename of every input path as a key and nothing else. */
  lemma DrainedKeys(paths: seq<string>, env: string -> FileEnv, order: seq<nat>)
    requires IsPermutation(order, |Unique(paths)|)
    ensures Names(Drained(Results(Unique(paths), env), order)) == set p | p in paths :: Basename(p)
  {
    var names := Names(Drained(Results(Unique(paths), env), order));
    forall name | name in names
      ensures name in set p | p in paths :: Basename(p)
    {
      DrainedNamesFromPaths(paths, env, order, name);
    }
    forall p | p in paths
      ensures Basename(p) in names
    {
      PathsAmongDrainedNames(paths, env, order, p);
    }
  }

  /** The distinct paths in the order their results are drained. */
  function DrainOrder(paths: seq<string>, order: seq<nat>): (q: seq<string>)
    requires IsPermutation(order, |Unique(paths)|)
    ensures |q| == |order|
    ensures forall k :: 0 <= k < |order| ==> q[k] == Unique(paths)[order[k]]
  {
    var files := Unique(paths);
    seq(|order|, k requires 0 <= k < |order| => files[order[k]])
  }

  /** The output map once every distinct file has been processed and its result drained in the
      order `order`: keyed by the basenames of the inputs, each holding the text of the last
      drained file with that basename. */
  function Output(paths: seq<string>, env: string -> FileEnv, order: seq<nat>): (m: map<string, Option<string>>)
    requires IsPermutation(order, |Unique(paths)|)
    ensures m.Keys == set p | p in paths :: Basename(p)
    ensures forall name :: name in m ==>
              exists p :: p in paths && Basename(p) == name && m[name] == ProcessFile(p, env(p)).text
    ensures var q := DrainOrder(paths, order);
            forall name :: name in m ==>
              exists k :: 0 <= k < |q| && Basename(q[k]) == name && m[name] == ProcessFile(q[k], env(q[k])).text
                          && forall j :: k < j < |q| ==> Basename(q[j]) != name
  {
    var d := Drained(Results(Unique(paths), env), order);
    var q := DrainOrder(paths, order);
    DrainedKeys(paths, env, order);
    DrainedLastWins(d, q, env);
    Drain(d)
  }

  /** When the `k`-th drained result is that of path `q[k]`, each key of the drained map holds
      the text of the last path of `q` with that basename. */
  lemma DrainedLastWins(d: seq<FileResult>, q: seq<string>, env: string -> FileEnv)
    requires |d| == |q| && forall k :: 0 <= k < |q| ==> d[k] == ProcessFile(q[k], env(q[k]))
    ensures forall name :: name in Drain(d) ==>
              exists k :: 0 <= k < |q| && Basename(q[k]) == name && Drain(d)[name] == ProcessFile(q[k], env(q[k])).text
                          && forall j :: k < j < |q| ==> Basename(q[j]) != name
  {
    forall name | name in Drain(d)
      ensures exists k :: 0 <= k < |q| && Basename(q[k]) == name && Drain(d)[name] == ProcessFile(q[k], env(q[k])).text
                          && forall j :: k < j < |q| ==> Basename(q[j]) != name
    {
      var k :| LastWith(d, name, k) && Drain(d)[name] == d[k].text;
      forall j | k < j < |q|
        ensures Basename(q[j]) != name
      {
        assert d[j] == ProcessFile(q[j], env(q[j]));
      }
    }
  }

  /** The program after reading its arguments: de-duplicate, check that every file exists
      (stopping at the first missing one before any work starts), process every distinct file
      once, and drain the results, finished in the order `order`, into the output map. */
  function Run(paths: seq<string>, present: string -> bool, env: string -> FileEnv, order: seq<nat>): (r: RunOutcome)
    requires IsPermutation(order, |Unique(paths)|)
    ensures r.Aborted? <==> exists p :: p in paths && !present(p)
    ensures r.Aborted? ==> r.missing in paths && !present(r.missing)
    ensures r.Completed? ==> r.output == Output(paths, env, order)
  {
    var files := Unique(paths);
    match FirstMissing(files, present)
    case Some(f) =>
      assert f in paths;
      Aborted(f)
    case None =>
      assert forall p :: p in paths ==> present(p) by {
        forall p | p in paths
          ensures present(p)
        {
          assert p in files;
        }
      }
      Completed(Output(paths, env, order))
  }

  /** An aborted run stops at the first missing path in input order, since de-duplication keeps
      paths in the order of their first occurrences. */
  lemma AbortsAtFirstMissingPath(paths: seq<string>, present: string -> bool, env: string -> FileEnv, order: seq<nat>)
    requires IsPermutation(order, |Unique(paths)|)
    requires Run(paths, present, env, order).Aborted?
    ensures var m := Run(paths, present, env, order).missing;
            forall j :: 0 <= j < FirstIndex(paths, m) ==> present(paths[j])
  {
    var files := Unique(paths);
    var m := Run(paths, present, env, order).missing;
    assert FirstMissing(files, present) == Some(m);
    forall j | 0 <= j < FirstIndex(paths, m)
      ensures present(paths[j])
    {
      var a := paths[j];
      assert a in paths[..j + 1];
      FirstIndexInPrefix(paths, j + 1, a);
      assert a in files && a != m;
      var ia, im := FirstIndex(files, a), FirstIndex(files, m);
      assert ia != im;
      assert ia < im;
      assert present(files[ia]);
    }
  }

  /** A run that aborts does no work: the probe and transcription outcomes, and the order the
      workers would have finished in, make no difference. */
  lemma AbortIgnoresEnvironment(paths: seq<string>, present: string -> bool,
                                env: string -> FileEnv, order: seq<nat>,
                                env': string -> FileEnv, order': seq<nat>)
    requires IsPermutation(order, |Unique(paths)|) && IsPermutation(order', |Unique(paths)|)
    requires Run(paths, present, env, order).Aborted?
    ensures Run(paths, present, env', order') == Run(paths, present, env, order)
  {
  }

  /** When no two distinct input paths share a basename, each basename maps to its own file's
      text, whatever order the workers finished in. */
  lemma DistinctBasenamesOrderFree(paths: seq<string>, present: string -> bool, env: string -> FileEnv, order: seq<nat>)
    requires IsPermutation(order, |Unique(paths)|)
    requires forall p :: p in paths ==> present(p)
    requires forall p, q :: p in paths && q in paths && Basename(p) == Basename(q) ==> p == q
    ensures Run(paths, present, env, order).Completed?
    ensures forall p :: p in paths ==>
              Run(paths, present, env, order).output[Basename(p)] == ProcessFile(p, env(p)).text
  {
  }

  /** Two results under one name leave one key, holding the later result's text. */
  lemma DrainTwoSameName(d: seq<FileResult>)
    requires |d| == 2 && d[0].name == d[1].name
    ensures Drain(d) == map[d[1].name := d[1].text]
  {
    assert d[..1][..0] == [];
    assert Drain(d[..1]) == map[d[0].name := d[0].text];
  }

  /** Files of one name in two different directories are two distinct paths. */
  lemma SameNameDistinctPaths(dir1: string, dir2: string, name: string)
    requires dir1 != dir2
    ensures dir1 + "/" + name != dir2 + "/" + name
  {
    var p1, p2 := dir1 + "/" + name, dir2 + "/" + name;
    if |dir1| == |dir2| {
      assert p1[..|dir1|] == dir1 && p2[..|dir2|] == dir2;
    }
  }

  /** Two files of one name in different directories (such as "/a/x.mp3" and "/b/x.mp3") leave a
      single key, their shared basename, holding the text of the file whose worker finished last. */
  lemma BasenameCollision(dir1: string, dir2: string, name: string,
                          present: string -> bool, env: string -> FileEnv, order: seq<nat>)
    requires name != [] && '/' !in name && dir1 != dir2
    requires IsPermutation(order, 2) && |order| == 2
    requires present(dir1 + "/" + name) && present(dir2 + "/" + name)
    ensures var paths := [dir1 + "/" + name, dir2 + "/" + name];
            var last := paths[order[1]];
            && IsPermutation(order, |Unique(paths)|)
            && Run(paths, present, env, order) == Completed(map[name := ProcessFile(last, env(last)).text])
  {
    var paths := [dir1 + "/" + name, dir2 + "/" + name];
    BasenameOfJoin(dir1, name);
    BasenameOfJoin(dir2, name);
    SameNameDistinctPaths(dir1, dir2, name);
    assert Distinct(paths);
    UniqueOfDistinct(paths);
    PermutationMembers(order, 2);
    assert FirstMissing(paths, present).None?;
    var d := Drained(Results(paths, env), order);
    DrainTwoSameName(d);
  }

  /** A reply of the transcription client passes through `transcribeFile` unchanged: its
      nil-text branch is never taken. */
  lemma DirectTranscriptionPassesThrough(file: string, outcomes: seq<Transcribe.Transport>,
                                         parse: string -> Option<JsonValue>)
    requires |outcomes| >= Transcribe.MaxAttempts
    ensures TranscribeFile(file, Transcribe.TranscribeRequest(outcomes, parse))
            == Transcribe.TranscribeRequest(outcomes, parse)
  {
  }

  /** A chunk cut and transcribed by the client fails only with the client's own error: the
      chunk worker's nil-text branch is never taken. */
  lemma ChunkNeverNilText(outcomes: seq<Transcribe.Transport>, parse: string -> Option<JsonValue>)
    requires |outcomes| >= Transcribe.MaxAttempts
    ensures ChunkWorker(Extracted(Transcribe.TranscribeRequest(outcomes, parse))).err != Some(ChunkNilText)
  {
  }
}
