/**
 * The write helpers of internal/fileutil/write.go. The file system is a
 * store object: the bytes of each existing file, the paths whose read
 * fails with an error other than "does not exist", the paths whose stat
 * fails with such an error, and the paths whose write fails. A file that
 * stats but cannot be read (no read permission) is in the second set only.
 */
module FileutilWrite {
  import opened Wrappers
  import opened Strs

  type Bytes = seq<bv8>

  datatype FsError = ReadFailed(path: string) | InspectFailed(path: string) | WriteFailed(path: string)

  class FileStore {
    var files: map<string, Bytes>
    var unreadable: set<string>
    var unstatable: set<string>
    var unwritable: set<string>

    constructor (files: map<string, Bytes>, unreadable: set<string>, unstatable: set<string>, unwritable: set<string>)
      ensures this.files == files && this.unreadable == unreadable
      ensures this.unstatable == unstatable && this.unwritable == unwritable
    {
      this.files := files;
      this.unreadable := unreadable;
      this.unstatable := unstatable;
      this.unwritable := unwritable;
    }

    /** Whether os.ReadFile succeeds with exactly these bytes. */
    predicate Holds(path: string, data: Bytes)
      reads this
    {
      path !in unreadable && path in files && files[path] == data
    }

    /**
     * WriteIfChangedTracked: no write when the file already holds data; a
     * read error other than "does not exist" is returned before any write;
     * otherwise the file holds data afterwards and the result says it was
     * rewritten, unless the write itself fails.
     */
    method WriteIfChangedTracked(path: string, data: Bytes) returns (changed: bool, err: Option<FsError>)
      modifies this
      ensures unreadable == old(unreadable) && unstatable == old(unstatable) && unwritable == old(unwritable)
      ensures old(Holds(path, data)) ==> !changed && err == None && files == old(files)
      ensures !old(Holds(path, data)) && path in unreadable ==>
        !changed && err == Some(ReadFailed(path)) && files == old(files)
      ensures !old(Holds(path, data)) && path !in unreadable && path in unwritable ==>
        !changed && err == Some(WriteFailed(path)) && files == old(files)
      ensures !old(Holds(path, data)) && path !in unreadable && path !in unwritable ==>
        changed && err == None && files == old(files)[path := data]
    {
      if Holds(path, data) {
        return false, None;
      }
      if path in unreadable {
        return false, Some(ReadFailed(path));
      }
      if path in unwritable {
        return false, Some(WriteFailed(path));
      }
      files := files[path := data];
      return true, None;
    }

    /**
     * WriteIfMissing: a path whose stat succeeds is never overwritten, even
     * when it cannot be read; a stat error other than "does not exist" is
     * returned; a missing file is written unless the write fails.
     */
    method WriteIfMissing(path: string, data: Bytes) returns (err: Option<FsError>)
      modifies this
      ensures unreadable == old(unreadable) && unstatable == old(unstatable) && unwritable == old(unwritable)
      ensures path in unstatable ==> err == Some(InspectFailed(path)) && files == old(files)
      ensures path !in unstatable && path in old(files) ==> err == None && files == old(files)
      ensures path !in unstatable && path !in old(files) && path in unwritable ==>
        err == Some(WriteFailed(path)) && files == old(files)
      ensures path !in unstatable && path !in old(files) && path !in unwritable ==>
        err == None && files == old(files)[path := data]
    {
      if path in unstatable {
        return Some(InspectFailed(path));
      }
      if path in files {
        return None;
      }
      if path in unwritable {
        return Some(WriteFailed(path));
      }
      files := files[path := data];
      return None;
    }
  }

  /** EnsureTrailingNewline: the shortest extension of s that ends in a newline. */
  function EnsureTrailingNewline(s: string): (r: string)
    ensures HasSuffix(r, "\n")
    ensures |s| <= |r| <= |s| + 1 && r[..|s|] == s
    ensures HasSuffix(s, "\n") ==> r == s
  {
    if HasSuffix(s, "\n") then s else s + "\n"
  }

  lemma EnsureTrailingNewlineIdempotent(s: string)
    ensures EnsureTrailingNewline(EnsureTrailingNewline(s)) == EnsureTrailingNewline(s)
  {
  }
}
