/**
 * The line-break cleaner (`data_cleaning/remove_line_breaking.py`): every
 * `.json` corpus file of a directory has the line breaks in its records'
 * titles and contents turned into spaces, and is rewritten only when that
 * changed something.
 */
module RemoveLineBreaking {
  import opened Text
  import opened Pages
  import opened Storage

  const TITLE := "title"
  const CONTENT := "content"
  const JSON_SUFFIX := ".json"

  /** `s.replace("\n", " ")` */
  function Clean(s: string): string
  {
    Replace(s, "\n", " ")
  }

  /** A record whose title and content, where present, are strings (`null` has no `replace`). */
  predicate Cleanable(item: Item)
  {
    (TITLE in item ==> item[TITLE].Str?) && (CONTENT in item ==> item[CONTENT].Str?)
  }

  predicate AllCleanable(items: seq<Item>)
  {
    forall i :: 0 <= i < |items| ==> Cleanable(items[i])
  }

  /** The loop body for one record: title first, then content, each only when the key is present. */
  function CleanItem(item: Item): Item
    requires Cleanable(item)
  {
    var a := if TITLE in item then item[TITLE := Str(Clean(item[TITLE].s))] else item;
    if CONTENT in a then a[CONTENT := Str(Clean(a[CONTENT].s))] else a
  }

  /** Every record cleaned, in place and in order. */
  function CleanAll(items: seq<Item>): (r: seq<Item>)
    requires AllCleanable(items)
    ensures |r| == |items|
  {
    seq(|items|, i requires 0 <= i < |items| => CleanItem(items[i]))
  }

  /** Some record's cleaning changes it: what sets `modified`. */
  predicate Changed(items: seq<Item>)
    requires AllCleanable(items)
  {
    exists j :: 0 <= j < |items| && CleanItem(items[j]) != items[j]
  }

  /** A record holds a line break in its title or content. */
  predicate HasBreak(item: Item)
    requires Cleanable(item)
  {
    (TITLE in item && '\n' in item[TITLE].s) || (CONTENT in item && '\n' in item[CONTENT].s)
  }

  /** The loop body for one record; `changed` reports whether the title or the content changed. */
  method CleanRecord(item: Item) returns (cleaned: Item, changed: bool)
    requires Cleanable(item)
    ensures cleaned == CleanItem(item)
    ensures changed <==> cleaned != item
  {
    cleaned := item;
    changed := false;
    if TITLE in cleaned {
      var newTitle := Clean(cleaned[TITLE].s);
      if Str(newTitle) != cleaned[TITLE] {
        cleaned := cleaned[TITLE := Str(newTitle)];
        changed := true;
      }
    }
    if CONTENT in cleaned {
      var newContent := Clean(cleaned[CONTENT].s);
      if Str(newContent) != cleaned[CONTENT] {
        cleaned := cleaned[CONTENT := Str(newContent)];
        changed := true;
      }
    }
    if !changed {
      assert cleaned == item;
    }
  }

  /**
   * The records of one file, cleaned in place; `modified` reports whether any
   * title or content changed.
   */
  method CleanItems(data: array<Item>) returns (modified: bool)
    requires AllCleanable(data[..])
    modifies data
    ensures data[..] == CleanAll(old(data[..]))
    ensures modified == Changed(old(data[..]))
  {
    ghost var orig := data[..];
    modified := false;
    for i := 0 to data.Length
      invariant forall j :: 0 <= j < i ==> data[j] == CleanItem(orig[j])
      invariant forall j :: i <= j < data.Length ==> data[j] == orig[j]
      invariant modified <==> exists j :: 0 <= j < i && CleanItem(orig[j]) != orig[j]
    {
      var item, changed := CleanRecord(data[i]);
      modified := modified || changed;
      data[i] := item;
    }
  }

  // ---------------------------------------------------------------------------
  // Properties of one record

  /**
   * Cleaning keeps the length and every character but the line break, which
   * becomes a space; no line break is left.
   */
  lemma CleanChars(s: string)
    ensures |Clean(s)| == |s|
    ensures forall i :: 0 <= i < |s| ==> Clean(s)[i] == if s[i] == '\n' then ' ' else s[i]
    ensures '\n' !in Clean(s)
    ensures Clean(s) == s <==> '\n' !in s
  {
    ReplaceCharAt(s, '\n', ' ');
    ReplaceCharRemoves(s, '\n', ' ');
    if '\n' !in s {
      ReplaceAbsent(s, "\n", " ");
    }
  }

  /**
   * A record keeps its keys and every field other than title and content;
   * those, where present, are cleaned.
   */
  lemma CleanItemFields(item: Item)
    requires Cleanable(item)
    ensures CleanItem(item).Keys == item.Keys
    ensures forall k :: k in item && k != TITLE && k != CONTENT ==> CleanItem(item)[k] == item[k]
    ensures TITLE in item ==> CleanItem(item)[TITLE] == Str(Clean(item[TITLE].s))
    ensures CONTENT in item ==> CleanItem(item)[CONTENT] == Str(Clean(item[CONTENT].s))
    ensures Cleanable(CleanItem(item)) && !HasBreak(CleanItem(item))
  {
    if TITLE in item {
      CleanChars(item[TITLE].s);
    }
    if CONTENT in item {
      CleanChars(item[CONTENT].s);
    }
  }

  /** A record changes exactly when it holds a line break. */
  lemma CleanItemChanges(item: Item)
    requires Cleanable(item)
    ensures CleanItem(item) != item <==> HasBreak(item)
  {
    CleanItemFields(item);
    if TITLE in item {
      CleanChars(item[TITLE].s);
      if '\n' in item[TITLE].s {
        assert CleanItem(item)[TITLE] != item[TITLE];
      }
    }
    if CONTENT in item {
      CleanChars(item[CONTENT].s);
      if '\n' in item[CONTENT].s {
        assert CleanItem(item)[CONTENT] != item[CONTENT];
      }
    }
    if !HasBreak(item) {
      assert CleanItem(item) == item;
    }
  }

  /**
   * `modified` is set exactly when some record holds a line break, and a
   * file without one is left as it is.
   */
  lemma ChangedIff(items: seq<Item>)
    requires AllCleanable(items)
    ensures Changed(items) <==> exists j :: 0 <= j < |items| && HasBreak(items[j])
    ensures !Changed(items) ==> CleanAll(items) == items
  {
    forall j | 0 <= j < |items|
      ensures CleanItem(items[j]) != items[j] <==> HasBreak(items[j])
    {
      CleanItemChanges(items[j]);
    }
  }

  /** A second pass changes nothing: cleaning is idempotent and reports no modification. */
  lemma CleanAllIdempotent(items: seq<Item>)
    requires AllCleanable(items)
    ensures AllCleanable(CleanAll(items))
    ensures CleanAll(CleanAll(items)) == CleanAll(items)
    ensures !Changed(CleanAll(items))
  {
    var once := CleanAll(items);
    forall j | 0 <= j < |once|
      ensures Cleanable(once[j]) && !HasBreak(once[j])
    {
      CleanItemFields(items[j]);
    }
    ChangedIff(once);
  }

  // ---------------------------------------------------------------------------
  // The directory

  /** The files the pass reads: `.json` names whose content decodes. */
  predicate Processed(files: map<string, Doc>, name: string)
  {
    name in files && EndsWith(name, JSON_SUFFIX) && files[name].Items?
  }

  /** Every processed file's records can be cleaned. */
  predicate FilesCleanable(files: map<string, Doc>)
  {
    forall name :: name in files && Processed(files, name) ==> AllCleanable(files[name].items)
  }

  /** A file after the pass. */
  function CleanFile(files: map<string, Doc>, name: string): Doc
    requires name in files && FilesCleanable(files)
  {
    if Processed(files, name) then Items(CleanAll(files[name].items)) else files[name]
  }

  /** A file the pass writes back. */
  predicate Rewrites(files: map<string, Doc>, name: string)
    requires FilesCleanable(files)
  {
    Processed(files, name) && Changed(files[name].items)
  }

  /** The directory after the pass. */
  function CleanFiles(files: map<string, Doc>): map<string, Doc>
    requires FilesCleanable(files)
  {
    map name | name in files :: CleanFile(files, name)
  }

  /** The directory once the files named in `done` have been through the pass. */
  function CleanedSoFar(files: map<string, Doc>, done: seq<string>): (r: map<string, Doc>)
    requires FilesCleanable(files)
    ensures r.Keys == files.Keys
  {
    map name | name in files :: if name in done then CleanFile(files, name) else files[name]
  }

  /** The files among `done` that the pass writes back, in the order of `done`. */
  function RewrittenIn(files: map<string, Doc>, done: seq<string>): seq<string>
    requires FilesCleanable(files)
  {
    if done == [] then []
    else
      var last := done[|done| - 1];
      RewrittenIn(files, done[..|done| - 1]) + if Rewrites(files, last) then [last] else []
  }

  lemma CleanedSoFarStep(files: map<string, Doc>, done: seq<string>, name: string)
    requires FilesCleanable(files) && name in files
    ensures CleanedSoFar(files, done + [name]) == CleanedSoFar(files, done)[name := CleanFile(files, name)]
  {
  }

  lemma RewrittenInStep(files: map<string, Doc>, done: seq<string>, name: string)
    requires FilesCleanable(files)
    ensures RewrittenIn(files, done + [name]) == RewrittenIn(files, done) + if Rewrites(files, name) then [name] else []
  {
    assert (done + [name])[..|done|] == done;
  }

  /** A file is rewritten exactly when it is in `done` and the pass writes it back. */
  lemma {:induction false} RewrittenInIff(files: map<string, Doc>, done: seq<string>, name: string)
    requires FilesCleanable(files)
    ensures name in RewrittenIn(files, done) <==> name in done && Rewrites(files, name)
    decreases |done|
  {
    if done != [] {
      var p := done[..|done| - 1];
      RewrittenInIff(files, p, name);
      assert done == p + [done[|done| - 1]];
    }
  }

  /** Once every file of the listing has been through the pass, the directory is `CleanFiles`. */
  lemma CleanedAll(files: map<string, Doc>, names: seq<string>)
    requires FilesCleanable(files)
    requires forall name :: name in names <==> name in files
    ensures CleanedSoFar(files, names) == CleanFiles(files)
  {
  }

  /**
   * The loop body for one file of the listing: a name without the `.json`
   * suffix and a file that fails to decode are skipped; otherwise the records
   * are cleaned and the file is written back when `modified`.
   */
  method CleanOneFile(fs: Directory, filename: string, ghost orig: map<string, Doc>) returns (written: bool)
    requires FilesCleanable(orig) && filename in orig
    requires filename in fs.files && fs.files[filename] == orig[filename]
    modifies fs
    ensures fs.files == old(fs.files)[filename := CleanFile(orig, filename)]
    ensures written == Rewrites(orig, filename)
  {
    written := false;
    if !EndsWith(filename, JSON_SUFFIX) {
      return;
    }
    var doc := fs.files[filename];
    if doc.Undecodable? {
      return;
    }
    var items := doc.items;
    var data := new Item[|items|](i requires 0 <= i < |items| => items[i]);
    assert data[..] == items;
    var modified := CleanItems(data);
    if modified {
      fs.files := fs.files[filename := Items(data[..])];
      written := true;
    } else {
      ChangedIff(items);
    }
  }

  /**
   * The pass over the directory listing `names`: every file of the listing
   * is handled in turn; `rewritten` lists the files written back, in listing
   * order.
   */
  method CleanDirectory(fs: Directory, names: seq<string>) returns (rewritten: seq<string>)
    requires forall name :: name in names <==> name in fs.files
    requires forall i, j :: 0 <= i < j < |names| ==> names[i] != names[j]
    requires FilesCleanable(fs.files)
    modifies fs
    ensures fs.files == CleanFiles(old(fs.files))
    ensures rewritten == RewrittenIn(old(fs.files), names)
  {
    ghost var orig := fs.files;
    rewritten := [];
    for k := 0 to |names|
      invariant fs.files == CleanedSoFar(orig, names[..k])
      invariant rewritten == RewrittenIn(orig, names[..k])
    {
      var filename := names[k];
      assert names[..k + 1] == names[..k] + [filename];
      assert filename !in names[..k];
      CleanedSoFarStep(orig, names[..k], filename);
      RewrittenInStep(orig, names[..k], filename);
      var written := CleanOneFile(fs, filename, orig);
      if written {
        rewritten := rewritten + [filename];
      }
    }
    assert names[..|names|] == names;
    CleanedAll(orig, names);
  }

  /** The files the pass rewrites are exactly the processed ones in which some record holds a line break. */
  lemma CleanDirectoryRewrites(files: map<string, Doc>, names: seq<string>, name: string)
    requires FilesCleanable(files)
    requires forall n :: n in names <==> n in files
    ensures name in RewrittenIn(files, names) <==>
      Processed(files, name) && exists j :: 0 <= j < |files[name].items| && HasBreak(files[name].items[j])
  {
    RewrittenInIff(files, names, name);
    if Processed(files, name) {
      ChangedIff(files[name].items);
    }
  }

  /** A second pass over the cleaned directory rewrites no file and changes nothing. */
  lemma SecondPassNoop(files: map<string, Doc>)
    requires FilesCleanable(files)
    ensures FilesCleanable(CleanFiles(files))
    ensures CleanFiles(CleanFiles(files)) == CleanFiles(files)
    ensures forall name :: name in CleanFiles(files) ==> !Rewrites(CleanFiles(files), name)
  {
    var once := CleanFiles(files);
    forall name | Processed(once, name)
      ensures AllCleanable(once[name].items)
      ensures CleanAll(once[name].items) == once[name].items && !Changed(once[name].items)
    {
      CleanAllIdempotent(files[name].items);
    }
  }
}
