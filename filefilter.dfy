/**
 * The upload filter handed to the multipart middleware: it answers through a
 * callback, once per upload, whether the file is accepted. Only a present file
 * whose original name matches `/\.(csv)$/` is accepted.
 */
module FileFilterHelper {
  import opened Wrappers

  /** The part of an uploaded file the filter looks at. */
  datatype MulterFile = MulterFile(originalname: Option<string>)

  /** The arguments of one callback invocation: the error passed, if any, and the verdict. */
  datatype CallbackArgs = CallbackArgs(error: Option<string>, acceptFile: bool)

  const NoFileMessage: string := "No file provided"
  const NotCsvMessage: string := "Only csv files are allowed!"

  /**
   * Whether `/\.(csv)$/` matches `s` from position `i`: a literal `.`, then
   * `csv` in lower case, then the end of the input (`$` without the `m` flag).
   */
  predicate MatchesAt(s: string, i: nat) {
    i + 4 == |s| && s[i] == '.' && s[i + 1] == 'c' && s[i + 2] == 's' && s[i + 3] == 'v'
  }

  /** A regex search from position `from` on: the leftmost position where the pattern matches. */
  function Search(s: string, from: nat): (r: Option<nat>)
    requires from <= |s|
    decreases |s| - from
    ensures r.Some? ==> from <= r.value <= |s| && MatchesAt(s, r.value)
    ensures r.Some? ==> forall i :: from <= i < r.value ==> !MatchesAt(s, i)
    ensures r.None? ==> forall i :: from <= i <= |s| ==> !MatchesAt(s, i)
  {
    if MatchesAt(s, from) then Some(from)
    else if from == |s| then None
    else Search(s, from + 1)
  }

  /** `file?.originalname?.match(/\.(csv)$/)` is truthy. */
  predicate IsCsvName(file: MulterFile) {
    file.originalname.Some? && Search(file.originalname.value, 0).Some?
  }

  /**
   * `fileFilter`: the callback invocations one call makes, in order. A missing
   * file and a name that does not match are refused with their messages; any
   * other file is accepted without an error.
   */
  function FileFilter(file: Option<MulterFile>): (calls: seq<CallbackArgs>)
    ensures |calls| == 1
    ensures calls[0].acceptFile <==> calls[0].error.None?
  {
    if file.None? then [CallbackArgs(Some(NoFileMessage), false)]
    else if !IsCsvName(file.value) then [CallbackArgs(Some(NotCsvMessage), false)]
    else [CallbackArgs(None, true)]
  }

  /** The pattern matches exactly the names that end in `.csv`. */
  lemma CsvRegexIsSuffix(s: string)
    ensures Search(s, 0).Some? <==> |s| >= 4 && s[|s| - 4..] == ".csv"
  {
    if |s| >= 4 && s[|s| - 4..] == ".csv" {
      var k := |s| - 4;
      assert s[k] == s[k..][0] && s[k + 1] == s[k..][1] && s[k + 2] == s[k..][2] && s[k + 3] == s[k..][3];
      assert MatchesAt(s, k);
    }
    var r := Search(s, 0);
    if r.Some? {
      var k := r.value;
      assert s[k..] == [s[k], s[k + 1], s[k + 2], s[k + 3]];
    }
  }

  /**
   * One callback per call: a missing file is refused with "No file provided";
   * a present file is accepted exactly when it has a name ending in `.csv`,
   * and is otherwise refused with "Only csv files are allowed!".
   */
  lemma FileFilterDecides(file: Option<MulterFile>)
    ensures file.None? ==> FileFilter(file) == [CallbackArgs(Some(NoFileMessage), false)]
    ensures file.Some? ==>
      var name := file.value.originalname;
      var accepted := name.Some? && |name.value| >= 4 && name.value[|name.value| - 4..] == ".csv";
      FileFilter(file) == [if accepted then CallbackArgs(None, true) else CallbackArgs(Some(NotCsvMessage), false)]
  {
    if file.Some? && file.value.originalname.Some? {
      CsvRegexIsSuffix(file.value.originalname.value);
    }
  }

  /** The match is case-sensitive: a name ending in `.CSV` is refused. */
  lemma UpperCaseRefused(stem: string)
    ensures FileFilter(Some(MulterFile(Some(stem + ".CSV")))) == [CallbackArgs(Some(NotCsvMessage), false)]
  {
    var name := stem + ".CSV";
    CsvRegexIsSuffix(name);
    assert name[|name| - 4..] == ".CSV";
  }
}
