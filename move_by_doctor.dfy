/**
 * Moving one doctor's records between corpus files
 * (`data_cleaning/document_move_by_doctor.py`): the records of the unsorted
 * test file answered by a given doctor go to the end of a department's test
 * file, and the rest stay behind. File names are relative to `./test_data/`.
 */
module MoveByDoctor {
  import opened Pages
  import opened Storage

  const DOCTOR := "소성민"
  const DEPARTMENT := "비뇨의학과"
  const SOURCE_FILE := "미분류_test.json"
  const TARGET_FILE := DEPARTMENT + "_test.json"
  const DOCTOR_KEY := "doctor"

  /** `item.get("doctor") == DOCTOR`: a record without the key, or with `null`, does not match. */
  predicate ByDoctor(item: Item)
  {
    DOCTOR_KEY in item && item[DOCTOR_KEY] == Str(DOCTOR)
  }

  /** The first comprehension: the doctor's records, in source order. */
  function Moved(items: seq<Item>): (r: seq<Item>)
    ensures forall i :: 0 <= i < |r| ==> ByDoctor(r[i])
    decreases |items|
  {
    if items == [] then []
    else (if ByDoctor(items[0]) then [items[0]] else []) + Moved(items[1..])
  }

  /** The second comprehension: every other record, in source order. */
  function Remaining(items: seq<Item>): (r: seq<Item>)
    ensures forall i :: 0 <= i < |r| ==> !ByDoctor(r[i])
    decreases |items|
  {
    if items == [] then []
    else (if ByDoctor(items[0]) then [] else [items[0]]) + Remaining(items[1..])
  }

  /**
   * The two lists split the source: together they hold every record exactly
   * as often as the source, so none is created or lost.
   */
  lemma {:induction false} Partition(items: seq<Item>)
    ensures |Moved(items)| + |Remaining(items)| == |items|
    ensures multiset(Moved(items)) + multiset(Remaining(items)) == multiset(items)
    decreases |items|
  {
    if items != [] {
      Partition(items[1..]);
      assert items == [items[0]] + items[1..];
    }
  }

  /** Both lists keep source order: splitting a concatenation splits each list the same way. */
  lemma {:induction false} PartitionAppend(a: seq<Item>, b: seq<Item>)
    ensures Moved(a + b) == Moved(a) + Moved(b)
    ensures Remaining(a + b) == Remaining(a) + Remaining(b)
    decreases |a|
  {
    if a == [] {
      assert a + b == b;
    } else {
      assert (a + b)[0] == a[0];
      assert (a + b)[1..] == a[1..] + b;
      PartitionAppend(a[1..], b);
    }
  }

  /** A record of the doctor is moved; any other record, one without the key included, stays. */
  lemma {:induction false} PartitionMembers(items: seq<Item>, x: Item)
    requires x in items
    ensures ByDoctor(x) ==> x in Moved(items)
    ensures !ByDoctor(x) ==> x in Remaining(items)
    ensures DOCTOR_KEY !in x ==> x in Remaining(items)
    decreases |items|
  {
    if items[0] != x {
      PartitionMembers(items[1..], x);
    }
  }

  // ---------------------------------------------------------------------------
  // The script as written: the source is overwritten before the target is read

  /**
   * The directory after the script, and whether it ran to the end. A missing
   * or undecodable source stops it before any write; an undecodable target
   * stops it after the source has been rewritten.
   */
  function MoveAsWritten(files: map<string, Doc>): (map<string, Doc>, bool)
  {
    if SOURCE_FILE !in files || files[SOURCE_FILE].Undecodable? then (files, false)
    else
      var items := files[SOURCE_FILE].items;
      var written := files[SOURCE_FILE := Items(Remaining(items))];
      if TARGET_FILE in written && written[TARGET_FILE].Undecodable? then (written, false)
      else (written[TARGET_FILE := Items(Loaded(written, TARGET_FILE) + Moved(items))], true)
  }

  method MoveByDoctorAsWritten(fs: Directory) returns (completed: bool)
    modifies fs
    ensures (fs.files, completed) == MoveAsWritten(old(fs.files))
  {
    if SOURCE_FILE !in fs.files || fs.files[SOURCE_FILE].Undecodable? {
      return false;
    }
    var data := fs.files[SOURCE_FILE].items;
    var movedData := Moved(data);
    var remainingData := Remaining(data);
    fs.files := fs.files[SOURCE_FILE := Items(remainingData)];
    var targetData: seq<Item> := [];
    if TARGET_FILE in fs.files {
      if fs.files[TARGET_FILE].Undecodable? {
        return false;
      }
      targetData := fs.files[TARGET_FILE].items;
    }
    targetData := targetData + movedData;
    fs.files := fs.files[TARGET_FILE := Items(targetData)];
    completed := true;
  }

  /** The records in the source and target files together. */
  function Held(files: map<string, Doc>): multiset<Item>
  {
    multiset(Loaded(files, SOURCE_FILE)) + multiset(Loaded(files, TARGET_FILE))
  }

  lemma SourceIsNotTarget()
    ensures SOURCE_FILE != TARGET_FILE
  {
    assert SOURCE_FILE[0] != TARGET_FILE[0];
  }

  /**
   * With an undecodable target, the script as written rewrites the source
   * without the doctor's records and then stops: those records are in
   * neither file any more.
   */
  lemma AsWrittenLosesMoved(files: map<string, Doc>)
    requires SOURCE_FILE in files && files[SOURCE_FILE].Items?
    requires TARGET_FILE in files && files[TARGET_FILE].Undecodable?
    ensures var (after, completed) := MoveAsWritten(files);
      && !completed
      && Loaded(after, SOURCE_FILE) == Remaining(files[SOURCE_FILE].items)
      && after[TARGET_FILE] == Undecodable
      && Held(after) + multiset(Moved(files[SOURCE_FILE].items)) == Held(files)
  {
    SourceIsNotTarget();
    Partition(files[SOURCE_FILE].items);
  }

  /** A concrete loss: one record of the doctor, and an undecodable target. */
  lemma AsWrittenLosesRecord()
    ensures var rec: Item := map[DOCTOR_KEY := Str(DOCTOR)];
      var files := map[SOURCE_FILE := Items([rec]), TARGET_FILE := Undecodable];
      var (after, _) := MoveAsWritten(files);
      Held(files) == multiset{rec} && Held(after) == multiset{}
  {
    var rec: Item := map[DOCTOR_KEY := Str(DOCTOR)];
    var files := map[SOURCE_FILE := Items([rec]), TARGET_FILE := Undecodable];
    SourceIsNotTarget();
    AsWrittenLosesMoved(files);
    assert Moved([rec]) == [rec];
    assert Remaining([rec]) == [];
  }

  // ---------------------------------------------------------------------------
  // The corrected order: the target is read before anything is written

  function Move(files: map<string, Doc>): (map<string, Doc>, bool)
  {
    if SOURCE_FILE !in files || files[SOURCE_FILE].Undecodable? then (files, false)
    else if TARGET_FILE in files && files[TARGET_FILE].Undecodable? then (files, false)
    else
      var items := files[SOURCE_FILE].items;
      var target := Loaded(files, TARGET_FILE);
      (files[SOURCE_FILE := Items(Remaining(items))][TARGET_FILE := Items(target + Moved(items))], true)
  }

  method MoveByDoctor(fs: Directory) returns (completed: bool)
    modifies fs
    ensures (fs.files, completed) == Move(old(fs.files))
  {
    if SOURCE_FILE !in fs.files || fs.files[SOURCE_FILE].Undecodable? {
      return false;
    }
    var data := fs.files[SOURCE_FILE].items;
    var movedData := Moved(data);
    var remainingData := Remaining(data);
    var targetData: seq<Item> := [];
    if TARGET_FILE in fs.files {
      if fs.files[TARGET_FILE].Undecodable? {
        return false;
      }
      targetData := fs.files[TARGET_FILE].items;
    }
    targetData := targetData + movedData;
    fs.files := fs.files[SOURCE_FILE := Items(remainingData)];
    fs.files := fs.files[TARGET_FILE := Items(targetData)];
    completed := true;
  }

  /** A completed corrected move keeps every record held by the two files. */
  lemma MoveHeld(files: map<string, Doc>)
    requires Move(files).1
    ensures Held(Move(files).0) == Held(files)
  {
    SourceIsNotTarget();
    var items := files[SOURCE_FILE].items;
    var target := Loaded(files, TARGET_FILE);
    var after := Move(files).0;
    assert Loaded(after, SOURCE_FILE) == Remaining(items);
    assert Loaded(after, TARGET_FILE) == target + Moved(items);
    assert Loaded(files, SOURCE_FILE) == items;
    SplitHeld(items, target);
  }

  /** Splitting the source and appending one part to the target loses and creates nothing. */
  lemma SplitHeld(items: seq<Item>, target: seq<Item>)
    ensures multiset(Remaining(items)) + multiset(target + Moved(items)) == multiset(items) + multiset(target)
  {
    Partition(items);
    assert multiset(target + Moved(items)) == multiset(target) + multiset(Moved(items));
  }

  /**
   * The corrected move either changes nothing, or leaves the source with the
   * other records in order, appends the doctor's records in order to the
   * old target (a missing one counting as empty), keeps every record held
   * by the two files, and leaves every other file alone.
   */
  lemma MoveConserves(files: map<string, Doc>)
    ensures var (after, completed) := Move(files);
      && (!completed ==> after == files)
      && (completed ==>
        var items := files[SOURCE_FILE].items;
        && after[SOURCE_FILE] == Items(Remaining(items))
        && after[TARGET_FILE] == Items(Loaded(files, TARGET_FILE) + Moved(items))
        && Held(after) == Held(files)
        && (forall name :: name != SOURCE_FILE && name != TARGET_FILE ==>
              (name in after <==> name in files) && (name in files ==> after[name] == files[name])))
  {
    SourceIsNotTarget();
    if Move(files).1 {
      MoveHeld(files);
    }
  }

  /** Whenever the target decodes (or is missing), the script as written and the corrected move agree. */
  lemma AsWrittenAgrees(files: map<string, Doc>)
    requires TARGET_FILE !in files || files[TARGET_FILE].Items?
    ensures MoveAsWritten(files) == Move(files)
  {
    SourceIsNotTarget();
  }
}
