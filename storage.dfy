/**
 * The department-partitioned corpus on disk: a directory of JSON files, each
 * holding a list of records, keyed by file name.
 */
module Storage {
  import opened Pages

  /** A file's content: a decodable list of records, or text `json.load` rejects. */
  datatype Doc = Items(items: seq<Item>) | Undecodable

  /** A directory whose files the scripts read and overwrite. */
  class Directory {
    var files: map<string, Doc>
  }

  predicate AllDecodable(files: map<string, Doc>)
  {
    forall name :: name in files ==> files[name].Items?
  }

  /** The records of a file, a missing file counting as an empty list. */
  function Loaded(files: map<string, Doc>, name: string): seq<Item>
  {
    if name in files && files[name].Items? then files[name].items else []
  }
}
