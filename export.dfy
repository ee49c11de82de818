/** One call of `LocresExporter.csv_to_json` (locresexporter/exporter.py) after the CSV
    has been read: build the document, write the primary file, then the archive copy.
    The file system enters as the set of paths that exist when the call starts. */
module Exporter {
  import opened Wrappers
  import opened KeyTree
  import opened TreeBuilder
  import opened Paths
  import opened WritePolicy

  /** One `open(path, mode)` followed by `json.dump` of the document. */
  datatype FileWrite = FileWrite(path: string, mode: FileMode)

  /** Why a call stopped early: a row could not be placed (before anything is written),
      or the game version could not be composed (after the primary file is written). */
  datatype Failure = BuildFailed(error: BuildError) | VersionUnreadable

  /** What a call did: the document built from the rows, which every write dumps, and the
      two writes. The CSV file is removed at the end exactly when the call did not fail. */
  datatype Run = Run(document: Option<Entries>, primary: Option<FileWrite>,
                     archive: Option<FileWrite>, failure: Option<Failure>)

  /** `archiveOutputPath` is the `output_path` of the package-level configuration when
      that file exists (`None` otherwise); `versionFields` are the strings decoded from
      the game executable. */
  function CsvToJson(rows: seq<Row>, jsonPath: string, forceOverwrite: bool, answer: string,
                     archiveOutputPath: Option<string>, pakLanguage: string,
                     versionFields: seq<string>, existing: set<string>): (run: Run)
    ensures run.document.None? <==> Build(rows).Err?
    ensures Build(rows).Ok? ==> run.document == Some(Build(rows).value)
    ensures Build(rows).Ok? ==> !(run.failure.Some? && run.failure.value.BuildFailed?)
    ensures Build(rows).Err? ==>
      run.primary.None? && run.archive.None? && run.failure == Some(BuildFailed(Build(rows).error))
    ensures run.primary.Some? ==>
      run.primary.value.path == jsonPath && ModeFits(run.primary.value.mode, jsonPath in existing)
    ensures Build(rows).Ok? ==>
      (run.primary.None? <==> jsonPath in existing && !forceOverwrite && answer !in YesAnswers)
    ensures run.archive.Some? <==>
      Build(rows).Ok? && archiveOutputPath.Some? && |versionFields| >= 4
    ensures run.archive.Some? ==>
      run.archive.value.path == ApplyGameVersion(archiveOutputPath.value, pakLanguage, versionFields).value
    ensures run.archive.Some? ==>
      var w := run.archive.value;
      ModeFits(w.mode, w.path in existing || (run.primary.Some? && w.path == jsonPath))
    ensures run.failure == Some(VersionUnreadable) <==>
      Build(rows).Ok? && archiveOutputPath.Some? && |versionFields| < 4
  {
    match Build(rows)
    case Err(e) => Run(None, None, None, Some(BuildFailed(e)))
    case Ok(doc) =>
      var primary := match PrimaryDecision(jsonPath in existing, forceOverwrite, answer)
                     case Write(mode) => Some(FileWrite(jsonPath, mode))
                     case Skip => None;
      var existingNow := if primary.Some? then existing + {jsonPath} else existing;
      match archiveOutputPath
      case None => Run(Some(doc), primary, None, None)
      case Some(outputPath) =>
        match ApplyGameVersion(outputPath, pakLanguage, versionFields)
        case None => Run(Some(doc), primary, None, Some(VersionUnreadable))
        case Some(archivePath) =>
          var copy := FileWrite(archivePath, ArchiveMode(archivePath in existingNow));
          Run(Some(doc), primary, Some(copy), None)
  }

  /** The archive copy does not depend on the user's answer about the primary file. */
  lemma ArchiveIgnoresAnswer(rows: seq<Row>, jsonPath: string, forceOverwrite: bool,
                             answer: string, otherAnswer: string,
                             archiveOutputPath: Option<string>, pakLanguage: string,
                             versionFields: seq<string>, existing: set<string>)
    ensures CsvToJson(rows, jsonPath, forceOverwrite, answer, archiveOutputPath, pakLanguage, versionFields, existing).archive
         == CsvToJson(rows, jsonPath, forceOverwrite, otherAnswer, archiveOutputPath, pakLanguage, versionFields, existing).archive
  {
  }
}
