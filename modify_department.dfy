/**
 * The department overwrite (`data_cleaning/modify_department.py`): every
 * record of the dental test file gets the department "치과", and the result
 * is written to a separate output file next to the script.
 */
module ModifyDepartment {
  import opened Pages
  import opened Storage

  const INPUT_FILE := "치과_test.json"
  const OUTPUT_FILE := "output.json"
  const DEPARTMENT_KEY := "department"
  const NEW_DEPARTMENT := "치과"

  /** One record with its department overwritten (the key is added when missing). */
  function Relabel(item: Item): Item
  {
    item[DEPARTMENT_KEY := Str(NEW_DEPARTMENT)]
  }

  /** Every record relabelled, in place and in order. */
  function RelabelAll(items: seq<Item>): (r: seq<Item>)
    ensures |r| == |items|
  {
    seq(|items|, i requires 0 <= i < |items| => Relabel(items[i]))
  }

  /** The loop over the loaded list, assigning each record's department. */
  method SetDepartment(data: array<Item>)
    modifies data
    ensures data[..] == RelabelAll(old(data[..]))
  {
    for i := 0 to data.Length
      invariant forall j :: 0 <= j < i ==> data[j] == Relabel(old(data[j]))
      invariant forall j :: i <= j < data.Length ==> data[j] == old(data[j])
    {
      data[i] := data[i][DEPARTMENT_KEY := Str(NEW_DEPARTMENT)];
    }
  }

  /**
   * The script: a missing or undecodable input stops it before any write;
   * otherwise the relabelled records are written to the output file and the
   * input is not touched.
   */
  function Modified(files: map<string, Doc>): (map<string, Doc>, bool)
  {
    if INPUT_FILE !in files || files[INPUT_FILE].Undecodable? then (files, false)
    else (files[OUTPUT_FILE := Items(RelabelAll(files[INPUT_FILE].items))], true)
  }

  method ModifyDepartment(fs: Directory) returns (completed: bool)
    modifies fs
    ensures (fs.files, completed) == Modified(old(fs.files))
  {
    if INPUT_FILE !in fs.files || fs.files[INPUT_FILE].Undecodable? {
      return false;
    }
    var items := fs.files[INPUT_FILE].items;
    var data := new Item[|items|](i requires 0 <= i < |items| => items[i]);
    assert data[..] == items;
    SetDepartment(data);
    fs.files := fs.files[OUTPUT_FILE := Items(data[..])];
    completed := true;
  }

  /**
   * After the loop every record's department is "치과", each record keeps
   * every other field and gains no other key, and count and order are kept.
   */
  lemma RelabelFields(items: seq<Item>)
    ensures var r := RelabelAll(items);
      forall i :: 0 <= i < |items| ==>
        && r[i][DEPARTMENT_KEY] == Str(NEW_DEPARTMENT)
        && r[i].Keys == items[i].Keys + {DEPARTMENT_KEY}
        && (forall k :: k in items[i] && k != DEPARTMENT_KEY ==> r[i][k] == items[i][k])
  {
  }

  /** Relabelling twice is relabelling once. */
  lemma RelabelIdempotent(items: seq<Item>)
    ensures RelabelAll(RelabelAll(items)) == RelabelAll(items)
  {
    var once := RelabelAll(items);
    forall i | 0 <= i < |items|
      ensures Relabel(once[i]) == once[i]
    {
      assert Relabel(once[i]) == once[i][DEPARTMENT_KEY := Str(NEW_DEPARTMENT)];
    }
  }

  /**
   * When the script completes, the input file is as before, the output file
   * holds the relabelled input, and every other file is unchanged.
   */
  lemma InputKept(files: map<string, Doc>)
    ensures var (after, completed) := Modified(files);
      && (!completed ==> after == files)
      && (completed ==>
        && after[INPUT_FILE] == files[INPUT_FILE]
        && after[OUTPUT_FILE] == Items(RelabelAll(files[INPUT_FILE].items))
        && (forall name :: name != OUTPUT_FILE ==>
              (name in after <==> name in files) && (name in files ==> after[name] == files[name])))
  {
    assert INPUT_FILE[0] != OUTPUT_FILE[0];
  }
}
