/**
 * `find_matching_specs`: the ripgrep search the watch rules made by
 * `run_specs_with_matching_constants_in` use, as written and with its log
 * line fixed. The case conversions and the pattern are the same code as in
 * `Search` and are reused from there. The
 * ripgrep run and the JSON parsing of its output are a parameter `rg` that
 * gives, for a pattern, each output record's `data.path.text` (`None` for a
 * record without one, such as the closing summary).
 */
module Rg {
  import opened Wrappers
  import opened Seqs
  import Search
  import RawIO

  /** `filter_map { |r| r.dig("data", "path", "text") }`. */
  function PathsOf(records: seq<Option<string>>): seq<string>
    decreases |records|
  {
    if records == [] then []
    else (if records[0].Some? then [records[0].value] else []) + PathsOf(records[1..])
  }

  lemma {:induction false} PathsOfMembers(records: seq<Option<string>>, p: string)
    ensures p in PathsOf(records) <==> Some(p) in records
    decreases |records|
  {
    if records != [] {
      PathsOfMembers(records[1..], p);
      assert records == [records[0]] + records[1..];
    }
  }

  /** `extract_constant_definitions` of `rg.rb` as written: it first logs with `puts paths`,
      which hands the raw-mode `puts` an Array, and that raises before any file is read. */
  function ExtractConstantDefinitions(paths: seq<string>, files: map<string, string>, scan: string -> seq<string>): Result<seq<string>, string> {
    var logged := RawIO.TranslateValues([RawIO.List(paths)]);
    if logged.Err? then Err(logged.error) else Search.ConstantDefinitions(paths, files, scan)
  }

  /** `find_matching_specs` as written. */
  function FindMatchingSpecs(paths: seq<string>, files: map<string, string>, scan: string -> seq<string>,
                             rg: string -> seq<Option<string>>): Result<seq<string>, string>
  {
    match ExtractConstantDefinitions(paths, files, scan)
    case Err(e) => Err(e)
    case Ok(constants) => Ok(Uniq(PathsOf(rg(Search.Pattern(constants)))))
  }

  /** Whatever the paths, the log line raises `NoMethodError`: no constant is extracted and
      no search runs. */
  lemma ArrayLogRaises(paths: seq<string>, files: map<string, string>, scan: string -> seq<string>,
                       rg: string -> seq<Option<string>>)
    ensures ExtractConstantDefinitions(paths, files, scan) == Err(RawIO.NoGsub)
    ensures FindMatchingSpecs(paths, files, scan, rg) == Err(RawIO.NoGsub)
  {
    assert [RawIO.List(paths)][0].List?;
  }

  /** `find_matching_specs` with the log line writing the paths as strings (`puts(*paths)`),
      which cannot raise; the log text itself is left out. An `Err` names the first path
      `File.read` fails on. */
  function SearchConstants(paths: seq<string>, files: map<string, string>, scan: string -> seq<string>,
                           rg: string -> seq<Option<string>>): Result<seq<string>, string>
  {
    var constants := Search.ConstantDefinitions(paths, files, scan);
    if constants.Err? then Err(constants.error)
    else Ok(Uniq(PathsOf(rg(Search.Pattern(constants.value)))))
  }

  /**
   * The search fails exactly when a path cannot be read. Otherwise its
   * result lists each spec path ripgrep reports for the pattern of the
   * files' constants once, in the order of first report.
   */
  lemma SearchConstantsShape(paths: seq<string>, files: map<string, string>, scan: string -> seq<string>,
                             rg: string -> seq<Option<string>>, p: string)
    ensures SearchConstants(paths, files, scan, rg).Ok? <==> forall k :: 0 <= k < |paths| ==> paths[k] in files
    ensures SearchConstants(paths, files, scan, rg).Ok? ==>
      var records := rg(Search.Pattern(Search.ConstantDefinitions(paths, files, scan).value));
      var specs := SearchConstants(paths, files, scan, rg).value;
      NoDup(specs) &&
      (p in specs <==> Some(p) in records) &&
      forall i, j :: 0 <= i < j < |specs| ==>
        specs[i] in PathsOf(records) && specs[j] in PathsOf(records) &&
        FirstIndex(PathsOf(records), specs[i]) < FirstIndex(PathsOf(records), specs[j])
  {
    Search.ConstantDefinitionsShape(paths, files, scan, p);
    var r := SearchConstants(paths, files, scan, rg);
    if r.Ok? {
      var records := rg(Search.Pattern(Search.ConstantDefinitions(paths, files, scan).value));
      UniqNoDup(PathsOf(records));
      UniqMembers(PathsOf(records));
      PathsOfMembers(records, p);
      forall i, j | 0 <= i < j < |r.value|
        ensures r.value[i] in PathsOf(records) && r.value[j] in PathsOf(records) &&
          FirstIndex(PathsOf(records), r.value[i]) < FirstIndex(PathsOf(records), r.value[j])
      {
        UniqOrder(PathsOf(records), i, j);
      }
    }
  }
}
