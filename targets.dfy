/**
 * `specs_to_run`: the list of spec targets a run is given, computed from the drained batch,
 * the failed specs of the last completed run and what exists on disk.
 * A target is a file or directory path, optionally followed by ':' and a line number.
 */
module Targets {
  import opened Wrappers
  import opened Seqs
  import opened Text

  datatype Kind = RegularFile | Directory

  /** The filesystem as the resolver queries it: every existing path and its kind. The empty
      path never exists (`File.exist?("")` is false). */
  type Disk = d: map<string, Kind> | "" !in d witness map[]

  /** `File.exist?`, true for directories too. */
  predicate Exists(disk: Disk, path: string) {
    path in disk
  }

  /** `File.directory?`. */
  predicate IsDirectory(disk: Disk, path: string) {
    path in disk && disk[path] == Directory
  }

  /** `path.include?(':')`: the target names specific lines. */
  predicate HasLine(path: string) {
    ':' in path
  }

  predicate AllColons(path: string) {
    forall k :: 0 <= k < |path| ==> path[k] == ':'
  }

  /** `path.split(':').first`: nil when the split yields no field (the path is empty or only
      colons), otherwise the text before the first ':'. */
  function BasePath(path: string): Option<string> {
    if AllColons(path) then None
    else if ':' in path then Some(path[..IndexOf(path, ':')])
    else Some(path)
  }

  /** Whether the non-directory branch keeps an entry: its base exists, and it is not a line
      target whose whole file is among the incoming paths. Entries without a base are not kept. */
  predicate Keep(entry: string, incoming: seq<string>, disk: Disk) {
    match BasePath(entry)
    case None => false
    case Some(base) => Exists(disk, base) && !(HasLine(entry) && base in incoming)
  }

  /** `paths.reject { |path| path.include?(':') }`. */
  function WithoutLineTargets(paths: seq<string>): seq<string>
    decreases |paths|
  {
    if paths == [] then []
    else (if HasLine(paths[0]) then [] else [paths[0]]) + WithoutLineTargets(paths[1..])
  }

  /** The `reject` over `paths + @failed_specs`, in order. Computing the base of an entry that
      has none raises (`File.exist?(nil)`); the first such entry is the error. */
  function Resolve(entries: seq<string>, incoming: seq<string>, disk: Disk): Result<seq<string>, string>
    decreases |entries|
  {
    if entries == [] then Ok([])
    else if BasePath(entries[0]).None? then Err(entries[0])
    else
      match Resolve(entries[1..], incoming, disk)
      case Err(e) => Err(e)
      case Ok(rest) => Ok((if Keep(entries[0], incoming, disk) then [entries[0]] else []) + rest)
  }

  /** `specs_to_run(paths)`. */
  function SpecsToRun(paths: seq<string>, failed: seq<string>, disk: Disk): Result<seq<string>, string> {
    if exists k :: 0 <= k < |paths| && IsDirectory(disk, paths[k]) then Ok(WithoutLineTargets(paths))
    else Resolve(paths + failed, incoming := paths, disk := disk)
  }

  // ---------------------------------------------------------------------------------------
  // The base of a target

  /** The base is exactly what Ruby's `split(':')` puts first, and nil when it returns nothing. */
  lemma BasePathIsFirstField(path: string)
    ensures BasePath(path) == if Split(path, ':') == [] then None else Some(Split(path, ':')[0])
  {
    SplitAllFirst(path);
    if AllColons(path) {
      SplitAllOfColons(path);
      DropAllEmpty(SplitAll(path, ':'));
    } else {
      DropTrailingEmptyKeepsHead(SplitAll(path, ':'), path);
    }
  }

  /** The first field of `SplitAll` is the text up to the first separator. */
  lemma SplitAllFirst(path: string)
    ensures SplitAll(path, ':')[0] == if ':' in path then path[..IndexOf(path, ':')] else path
  {
  }

  /** A string of colons splits into empty fields only. */
  lemma {:induction false} SplitAllOfColons(path: string)
    requires AllColons(path)
    ensures forall k :: 0 <= k < |SplitAll(path, ':')| ==> SplitAll(path, ':')[k] == []
    decreases |path|
  {
    if path != [] {
      assert path[0] == ':';
      assert IndexOf(path, ':') == 0;
      SplitAllOfColons(path[1..]);
      var rest := SplitAll(path[1..], ':');
      assert SplitAll(path, ':') == [[]] + rest;
      forall k | 0 <= k < |[[]] + rest| ensures ([[]] + rest)[k] == [] {
        if k > 0 { assert ([[]] + rest)[k] == rest[k - 1]; }
      }
    }
  }

  lemma {:induction false} DropAllEmpty(xs: seq<string>)
    requires forall k :: 0 <= k < |xs| ==> xs[k] == []
    ensures DropTrailingEmpty(xs) == []
    decreases |xs|
  {
    if xs != [] {
      DropAllEmpty(xs[..|xs| - 1]);
    }
  }

  /** Dropping trailing empty fields keeps the first field when the string has a non-colon. */
  lemma {:induction false} DropTrailingEmptyKeepsHead(xs: seq<string>, path: string)
    requires xs == SplitAll(path, ':') && !AllColons(path)
    ensures DropTrailingEmpty(xs) != [] && DropTrailingEmpty(xs)[0] == xs[0]
  {
    var j :| 0 <= j < |path| && path[j] != ':';
    NonEmptyFieldExists(xs, j, path);
    var k :| 0 <= k < |xs| && xs[k] != [];
    DropTrailingEmptyPrefix(xs, k);
    var d := DropTrailingEmpty(xs);
    assert d[0] == d[..k + 1][0] == xs[..k + 1][0];
  }

  /** A string that is not all colons has a non-empty field. */
  lemma NonEmptyFieldExists(xs: seq<string>, j: nat, path: string)
    requires xs == SplitAll(path, ':') && j < |path| && path[j] != ':'
    ensures exists k :: 0 <= k < |xs| && xs[k] != []
  {
    if forall k :: 0 <= k < |xs| ==> xs[k] == [] {
      JoinSplitAll(path, ':');
      JoinOfEmpties(xs);
    }
  }

  lemma {:induction false} JoinOfEmpties(xs: seq<string>)
    requires forall k :: 0 <= k < |xs| ==> xs[k] == []
    ensures AllColons(Join(xs, [':']))
    decreases |xs|
  {
    if |xs| > 1 {
      JoinOfEmpties(xs[1..]);
      assert Join(xs, [':']) == [':'] + Join(xs[1..], [':']);
    }
  }

  /** Dropping trailing empty strings keeps every field up to a non-empty one. */
  lemma {:induction false} DropTrailingEmptyPrefix(xs: seq<string>, k: nat)
    requires k < |xs| && xs[k] != []
    ensures |DropTrailingEmpty(xs)| > k && DropTrailingEmpty(xs)[..k + 1] == xs[..k + 1]
    decreases |xs|
  {
    if xs[|xs| - 1] == [] {
      assert k < |xs| - 1;
      DropTrailingEmptyPrefix(xs[..|xs| - 1], k);
    }
  }

  // ---------------------------------------------------------------------------------------
  // The directory branch

  /** The directory branch keeps the incoming order and every non-line target, as often as it came. */
  lemma {:induction false} WithoutLineTargetsCount(paths: seq<string>, x: string)
    ensures Count(WithoutLineTargets(paths), x) == if HasLine(x) then 0 else Count(paths, x)
    decreases |paths|
  {
    if paths != [] {
      var head := if HasLine(paths[0]) then [] else [paths[0]];
      WithoutLineTargetsCount(paths[1..], x);
      CountAppend(head, WithoutLineTargets(paths[1..]), x);
    }
  }

  lemma {:induction false} WithoutLineTargetsAppend(a: seq<string>, b: seq<string>)
    ensures WithoutLineTargets(a + b) == WithoutLineTargets(a) + WithoutLineTargets(b)
    decreases |a|
  {
    if a == [] {
      assert a + b == b;
    } else {
      assert (a + b)[0] == a[0] && (a + b)[1..] == a[1..] + b;
      WithoutLineTargetsAppend(a[1..], b);
    }
  }

  /** A directory among the incoming paths: the result is the incoming paths without line
      targets, and the failed specs play no part. */
  lemma DirectoryRun(paths: seq<string>, failed: seq<string>, other: seq<string>, disk: Disk, d: nat)
    requires d < |paths| && IsDirectory(disk, paths[d])
    ensures SpecsToRun(paths, failed, disk) == Ok(WithoutLineTargets(paths))
    ensures SpecsToRun(paths, failed, disk) == SpecsToRun(paths, other, disk)
    ensures forall k :: 0 <= k < |WithoutLineTargets(paths)| ==> !HasLine(WithoutLineTargets(paths)[k])
  {
    NoLineTargetsLeft(paths);
  }

  lemma {:induction false} NoLineTargetsLeft(paths: seq<string>)
    ensures forall k :: 0 <= k < |WithoutLineTargets(paths)| ==> !HasLine(WithoutLineTargets(paths)[k])
    decreases |paths|
  {
    if paths != [] {
      NoLineTargetsLeft(paths[1..]);
    }
  }

  // ---------------------------------------------------------------------------------------
  // The merge branch

  predicate AllHaveBase(entries: seq<string>) {
    forall k :: 0 <= k < |entries| ==> BasePath(entries[k]).Some?
  }

  /** Resolution fails exactly when some entry has no base. */
  lemma {:induction false} ResolveFails(entries: seq<string>, incoming: seq<string>, disk: Disk)
    ensures Resolve(entries, incoming, disk).Ok? <==> AllHaveBase(entries)
    decreases |entries|
  {
    if entries != [] {
      var rest := entries[1..];
      ResolveFails(rest, incoming, disk);
      assert forall k :: 0 <= k < |rest| ==> rest[k] == entries[k + 1];
      assert AllHaveBase(entries) <==> BasePath(entries[0]).Some? && AllHaveBase(rest);
    }
  }

  /** Resolution decides entry by entry, in order: resolving a concatenation concatenates the results. */
  lemma {:induction false} ResolveAppend(a: seq<string>, b: seq<string>, incoming: seq<string>, disk: Disk)
    requires Resolve(a, incoming, disk).Ok? && Resolve(b, incoming, disk).Ok?
    ensures Resolve(a + b, incoming, disk) == Ok(Resolve(a, incoming, disk).value + Resolve(b, incoming, disk).value)
    decreases |a|
  {
    if a == [] {
      assert a + b == b;
      assert [] + Resolve(b, incoming, disk).value == Resolve(b, incoming, disk).value;
    } else {
      assert (a + b)[0] == a[0] && (a + b)[1..] == a[1..] + b;
      var head := if Keep(a[0], incoming, disk) then [a[0]] else [];
      var ra, rb := Resolve(a[1..], incoming, disk).value, Resolve(b, incoming, disk).value;
      assert Resolve(a, incoming, disk).value == head + ra;
      ResolveAppend(a[1..], b, incoming, disk);
      assert Resolve(a + b, incoming, disk) == Ok(head + (ra + rb));
      assert head + (ra + rb) == (head + ra) + rb;
    }
  }

  /** One entry resolves to itself when kept, to nothing otherwise. */
  lemma ResolveSingle(e: string, incoming: seq<string>, disk: Disk)
    requires BasePath(e).Some?
    ensures Resolve([e], incoming, disk) == Ok(if Keep(e, incoming, disk) then [e] else [])
  {
    assert [e][0] == e && [e][1..] == [];
    var head: seq<string> := if Keep(e, incoming, disk) then [e] else [];
    assert head + [] == head;
  }

  /** Every kept entry survives as many times as it occurs in `paths + @failed_specs`; there
      is no de-duplication. */
  lemma {:induction false} ResolveCount(entries: seq<string>, incoming: seq<string>, disk: Disk, x: string)
    requires Resolve(entries, incoming, disk).Ok?
    ensures Count(Resolve(entries, incoming, disk).value, x) == if Keep(x, incoming, disk) then Count(entries, x) else 0
    decreases |entries|
  {
    if entries != [] {
      var e := entries[0];
      var head := if Keep(e, incoming, disk) then [e] else [];
      ResolveCount(entries[1..], incoming, disk, x);
      CountAppend(head, Resolve(entries[1..], incoming, disk).value, x);
    }
  }

  /** When every entry has a base and is kept, resolving changes nothing. */
  lemma {:induction false} ResolveKeepsAll(entries: seq<string>, incoming: seq<string>, disk: Disk)
    requires forall k :: 0 <= k < |entries| ==> BasePath(entries[k]).Some? && Keep(entries[k], incoming, disk)
    ensures Resolve(entries, incoming, disk) == Ok(entries)
    decreases |entries|
  {
    if entries != [] {
      ResolveKeepsAll(entries[1..], incoming, disk);
      assert [entries[0]] + entries[1..] == entries;
    }
  }

  /** No directory among the incoming paths and every entry has a base: the result is the
      incoming paths followed by the failed specs, each list filtered by `Keep`. */
  lemma MergeRun(paths: seq<string>, failed: seq<string>, disk: Disk)
    requires forall k :: 0 <= k < |paths| ==> !IsDirectory(disk, paths[k])
    requires AllHaveBase(paths) && AllHaveBase(failed)
    ensures Resolve(paths, paths, disk).Ok? && Resolve(failed, paths, disk).Ok?
    ensures SpecsToRun(paths, failed, disk).Ok?
    ensures SpecsToRun(paths, failed, disk) == Ok(Resolve(paths, paths, disk).value + Resolve(failed, paths, disk).value)
    ensures forall x :: Count(SpecsToRun(paths, failed, disk).value, x) ==
                        if Keep(x, paths, disk) then Count(paths, x) + Count(failed, x) else 0
  {
    ResolveFails(paths, paths, disk);
    ResolveFails(failed, paths, disk);
    ResolveAppend(paths, failed, paths, disk);
    forall x
      ensures Count(SpecsToRun(paths, failed, disk).value, x) ==
              if Keep(x, paths, disk) then Count(paths, x) + Count(failed, x) else 0
    {
      ResolveCount(paths + failed, paths, disk, x);
      CountAppend(paths, failed, x);
    }
  }

  // ---------------------------------------------------------------------------------------
  // Examples

  /** A plain file path is its own base. */
  lemma PlainPathBase(path: string)
    requires path != [] && ':' !in path
    ensures BasePath(path) == Some(path) && !HasLine(path)
  {
    assert path[0] != ':';
  }

  /** The base of `file:line` is `file`. */
  lemma LineTargetBase(file: string, line: string)
    requires file != [] && ':' !in file
    ensures BasePath(file + ":" + line) == Some(file) && HasLine(file + ":" + line)
  {
    var t := file + ":" + line;
    assert t[0] != ':' && t[|file|] == ':' && t[..|file|] == file;
    assert IndexOf(t, ':') == |file|;
  }

  /** Two entries with a base resolve one after the other. */
  lemma ResolvePair(e1: string, e2: string, incoming: seq<string>, disk: Disk)
    requires BasePath(e1).Some? && BasePath(e2).Some?
    ensures Resolve([e1, e2], incoming, disk) ==
            Ok((if Keep(e1, incoming, disk) then [e1] else []) + (if Keep(e2, incoming, disk) then [e2] else []))
  {
    ResolveSingle(e1, incoming, disk);
    ResolveSingle(e2, incoming, disk);
    assert [e1, e2] == [e1] + [e2];
    ResolveAppend([e1], [e2], incoming, disk);
  }

  /** A batch without a directory goes through the resolver. */
  lemma NoDirectoryResolves(paths: seq<string>, failed: seq<string>, disk: Disk)
    requires forall k :: 0 <= k < |paths| ==> !IsDirectory(disk, paths[k])
    ensures SpecsToRun(paths, failed, disk) == Resolve(paths + failed, paths, disk)
  {
  }

  /** A failed line target whose file still exists is run after the new batch. */
  lemma FailedLineTargetKept(y: string, x: string, line: string, disk: Disk)
    requires y != [] && ':' !in y && x != [] && ':' !in x && x != y
    requires Exists(disk, y) && !IsDirectory(disk, y) && Exists(disk, x)
    ensures SpecsToRun([y], [x + ":" + line], disk) == Ok([y, x + ":" + line])
  {
    var t := x + ":" + line;
    PlainPathBase(y);
    LineTargetBase(x, line);
    NoDirectoryResolves([y], [t], disk);
    assert Keep(y, [y], disk) && Keep(t, [y], disk);
    assert [y] + [t] == [y, t];
    ResolvePair(y, t, [y], disk);
  }

  /** A failed target whose file is gone is dropped. */
  lemma FailedTargetOfDeletedFileDropped(y: string, x: string, line: string, disk: Disk)
    requires y != [] && ':' !in y && x != [] && ':' !in x
    requires Exists(disk, y) && !IsDirectory(disk, y) && !Exists(disk, x)
    ensures SpecsToRun([y], [x + ":" + line], disk) == Ok([y])
  {
    var t := x + ":" + line;
    PlainPathBase(y);
    LineTargetBase(x, line);
    NoDirectoryResolves([y], [t], disk);
    assert Keep(y, [y], disk) && !Keep(t, [y], disk);
    assert [y] + [t] == [y, t];
    ResolvePair(y, t, [y], disk);
    assert [y] + [] == [y];
  }

  /** A line target is dropped when its whole file is in the incoming batch. */
  lemma LineTargetCoveredByIncomingFile(f: string, line: string, disk: Disk)
    requires f != [] && ':' !in f
    requires Exists(disk, f) && !IsDirectory(disk, f) && !IsDirectory(disk, f + ":" + line)
    ensures SpecsToRun([f, f + ":" + line], [], disk) == Ok([f])
  {
    var t := f + ":" + line;
    var p := [f, t];
    PlainPathBase(f);
    LineTargetBase(f, line);
    NoDirectoryResolves(p, [], disk);
    assert Keep(f, p, disk) && !Keep(t, p, disk);
    assert p + [] == p;
    ResolvePair(f, t, p, disk);
    assert [f] + [] == [f];
  }

  /** A line target is kept when its whole file comes only from the failed specs. */
  lemma LineTargetNotCoveredByFailedFile(f: string, line: string, disk: Disk)
    requires f != [] && ':' !in f
    requires Exists(disk, f) && !IsDirectory(disk, f + ":" + line)
    ensures SpecsToRun([f + ":" + line], [f], disk) == Ok([f + ":" + line, f])
  {
    var t := f + ":" + line;
    PlainPathBase(f);
    LineTargetBase(f, line);
    NoDirectoryResolves([t], [f], disk);
    assert ':' in t && ':' !in f;
    assert f !in [t];
    assert Keep(t, [t], disk) && Keep(f, [t], disk);
    assert [t] + [f] == [t, f];
    ResolvePair(t, f, [t], disk);
  }

  /** A directory in the batch runs just the batch: the failed line target is not merged. */
  lemma DirectoryRunIgnoresFailed()
    ensures SpecsToRun(["spec"], ["z_spec.rb:5"], map["spec" := Directory, "z_spec.rb" := RegularFile]) == Ok(["spec"])
  {
    var d := map["spec" := Directory, "z_spec.rb" := RegularFile];
    DirectoryRun(["spec"], ["z_spec.rb:5"], [], d, 0);
    assert !HasLine("spec");
    assert ["spec"][1..] == [];
    assert WithoutLineTargets(["spec"]) == ["spec"] + WithoutLineTargets([]);
    assert ["spec"] + [] == ["spec"];
  }

  /** Resolving the result again with the same failed specs appends them a second time:
      the resolver is not idempotent. */
  lemma NotIdempotent(y: string, x: string, line: string, disk: Disk)
    requires y != [] && ':' !in y && x != [] && ':' !in x && x != y
    requires Exists(disk, y) && !IsDirectory(disk, y) && Exists(disk, x) && !IsDirectory(disk, x + ":" + line)
    ensures SpecsToRun([y], [x + ":" + line], disk) == Ok([y, x + ":" + line])
    ensures SpecsToRun([y, x + ":" + line], [x + ":" + line], disk) == Ok([y, x + ":" + line, x + ":" + line])
  {
    var t := x + ":" + line;
    var p := [y, t];
    FailedLineTargetKept(y, x, line, disk);
    PlainPathBase(y);
    LineTargetBase(x, line);
    NoDirectoryResolves(p, [t], disk);
    assert x !in p;
    assert Keep(y, p, disk) && Keep(t, p, disk);
    ResolvePair(y, t, p, disk);
    ResolveSingle(t, p, disk);
    assert [y] + [t] == p;
    ResolveAppend(p, [t], p, disk);
    assert p + [t] == [y, t, t];
  }

  /** A target made only of colons has no base: the resolver raises instead of answering. */
  lemma ColonTargetRaises()
    ensures SpecsToRun(["a_spec.rb"], [":"], map["a_spec.rb" := RegularFile]) == Err(":")
  {
    PlainPathBase("a_spec.rb");
    var d := map["a_spec.rb" := RegularFile];
    assert !IsDirectory(d, ["a_spec.rb"][0]);
    assert AllColons(":");
    var all := ["a_spec.rb"] + [":"];
    assert all[0] == "a_spec.rb" && all[1..] == [":"] && [":"][1..] == [];
    assert BasePath(":") == None;
    assert Resolve([":"], ["a_spec.rb"], d) == Err(":");
    assert Resolve(all, ["a_spec.rb"], d) == Err(":");
  }
}
