/**
 * `FileReferences`: every source path found for one base name in one month
 * bucket, the first of them being the copy that is organized.
 */
module References {
  import opened Dates
  import opened Paths
  import opened FileSystem

  /** What the execution pass reads of a record. */
  datatype RecordView = RecordView(sourcePaths: seq<Path>, fileBaseName: string, fileNameOnly: string, fileExtension: string)

  /**
   * A set of paths is a pure duplicate when every path after the first has
   * the same bytes as the first; a single path is trivially pure.
   */
  predicate IsPureDuplicate(paths: seq<Path>, disk: Disk)
    requires |paths| > 0 && forall i :: 0 <= i < |paths| ==> paths[i] in disk.files
  {
    forall i :: 1 <= i < |paths| ==> SameContent(disk, paths[0], paths[i])
  }

  /** Comparing with the first path is enough: a pure set is byte-identical pairwise. */
  lemma PureMeansPairwiseIdentical(paths: seq<Path>, disk: Disk)
    requires |paths| > 0 && forall i :: 0 <= i < |paths| ==> paths[i] in disk.files
    ensures IsPureDuplicate(paths, disk) <==>
      forall i, j :: 0 <= i < |paths| && 0 <= j < |paths| ==> disk.files[paths[i]] == disk.files[paths[j]]
  {
    if IsPureDuplicate(paths, disk) {
      forall i, j | 0 <= i < |paths| && 0 <= j < |paths|
        ensures disk.files[paths[i]] == disk.files[paths[j]]
      {
        if i != 0 { assert SameContent(disk, paths[0], paths[i]); }
        if j != 0 { assert SameContent(disk, paths[0], paths[j]); }
      }
    }
  }

  class FileReferences {
    var sourcePaths: seq<Path>
    var fileBaseName: string
    var creationDate: Timestamp
    var fileNameOnly: string
    var fileExtension: string

    /** The base name is that of the first path, and the stem and extension are its `splitext`. */
    ghost predicate Valid()
      reads this
    {
      && |sourcePaths| > 0
      && fileBaseName == BaseName(sourcePaths[0])
      && (fileNameOnly, fileExtension) == SplitExt(fileBaseName)
    }

    constructor (sourcePath: Path, creationDate: Timestamp)
      ensures Valid()
      ensures sourcePaths == [sourcePath]
      ensures fileBaseName == BaseName(sourcePath)
      ensures (fileNameOnly, fileExtension) == SplitExt(fileBaseName)
      ensures this.creationDate == creationDate
    {
      sourcePaths := [sourcePath];
      fileBaseName := BaseName(sourcePath);
      this.creationDate := creationDate;
      var split := SplitExt(BaseName(sourcePath));
      fileNameOnly := split.0;
      fileExtension := split.1;
    }

    function View(): RecordView
      reads this
    {
      RecordView(sourcePaths, fileBaseName, fileNameOnly, fileExtension)
    }

    predicate AlreadyHasPath(fullPath: Path)
      reads this
    {
      fullPath in sourcePaths
    }

    method AddFileReference(fullPath: Path)
      requires Valid()
      modifies this
      ensures Valid()
      ensures sourcePaths == old(sourcePaths) + [fullPath]
      ensures fileBaseName == old(fileBaseName) && creationDate == old(creationDate)
      ensures fileNameOnly == old(fileNameOnly) && fileExtension == old(fileExtension)
    {
      var first := sourcePaths[0];
      sourcePaths := sourcePaths + [fullPath];
      assert sourcePaths[0] == first;
    }

    predicate AreDuplicates()
      reads this
    {
      |sourcePaths| > 1
    }

    /**
     * Compares the first path with every other one; the first mismatch ends
     * the scan with `false`.
     */
    method EnsureIsPureDuplicate(disk: Disk) returns (pure: bool)
      requires |sourcePaths| > 0
      requires forall i :: 0 <= i < |sourcePaths| ==> sourcePaths[i] in disk.files
      ensures pure <==> IsPureDuplicate(sourcePaths, disk)
      ensures |sourcePaths| == 1 ==> pure
    {
      if AreDuplicates() {
        for i := 1 to |sourcePaths|
          invariant forall j :: 1 <= j < i ==> SameContent(disk, sourcePaths[0], sourcePaths[j])
        {
          if !SameContent(disk, sourcePaths[0], sourcePaths[i]) {
            return false;
          }
        }
      }
      return true;
    }
  }
}
