/** How the batch runner finds the image, command and identifier columns of
    its input table. */
module Columns {
  import opened Wrappers
  import opened Text

  /** The accepted names of each column, in the order they are tried. */
  const ImageNames: seq<string> := ["image", "image_name", "docker_image", "docker_img"]
  const CommandNames: seq<string> := ["test_command", "command", "cmd", "run_cmd"]
  const IdNames: seq<string> := ["pair_id", "id", "pair"]

  /** Python truthiness of an optional string: present and non-empty. */
  predicate Truthy(o: Option<string>) {
    o.Some? && o.value != ""
  }

  /** `v` sits at some index of `candidates` before which no candidate is a column. */
  ghost predicate FirstAmong(candidates: seq<string>, cols: seq<string>, v: string) {
    exists k :: 0 <= k < |candidates| && candidates[k] == v && forall j :: 0 <= j < k ==> candidates[j] !in cols
  }

  lemma {:induction false} FirstAmongShift(candidates: seq<string>, cols: seq<string>, v: string)
    requires |candidates| > 0 && candidates[0] !in cols
    requires FirstAmong(candidates[1..], cols, v)
    ensures FirstAmong(candidates, cols, v)
  {
    var k :| 0 <= k < |candidates[1..]| && candidates[1..][k] == v
      && forall j :: 0 <= j < k ==> candidates[1..][j] !in cols;
    assert candidates[k + 1] == v;
    forall j | 0 <= j < k + 1 ensures candidates[j] !in cols {
      if j > 0 { assert candidates[j] == candidates[1..][j - 1]; }
    }
  }

  /** `choose_column`: the first candidate, in candidate order, that is one
      of the columns, or None when no candidate is. */
  function ChooseColumn(cols: seq<string>, candidates: seq<string>): (r: Option<string>)
    ensures r.None? <==> forall k :: 0 <= k < |candidates| ==> candidates[k] !in cols
    ensures r.Some? ==> r.value in cols && FirstAmong(candidates, cols, r.value)
  {
    if |candidates| == 0 then None
    else if candidates[0] in cols then
      assert candidates[0] == candidates[0];
      Some(candidates[0])
    else
      var r := ChooseColumn(cols, candidates[1..]);
      assert forall k :: 1 <= k < |candidates| ==> candidates[k] == candidates[1..][k - 1];
      if r.Some? then FirstAmongShift(candidates, cols, r.value); r else r
  }

  /** `[c for c in names if c in cols]`: the names that are columns, in name order. */
  function NamesPresent(names: seq<string>, cols: seq<string>): (r: seq<string>)
    ensures forall c :: c in r <==> c in names && c in cols
    ensures |r| <= |names|
    ensures ChooseColumn(cols, r) == ChooseColumn(cols, names)
  {
    if |names| == 0 then []
    else
      var rest := NamesPresent(names[1..], cols);
      assert forall c :: c in names <==> c == names[0] || c in names[1..];
      if names[0] in cols then
        assert ([names[0]] + rest)[0] == names[0];
        [names[0]] + rest
      else rest
  }

  /** `v` is a column whose lower-cased name is among `names`, and no
      earlier column's is. */
  ghost predicate FirstLowered(cols: seq<string>, names: seq<string>, v: string) {
    exists k :: 0 <= k < |cols| && cols[k] == v && Lower(v) in names
      && forall j :: 0 <= j < k ==> Lower(cols[j]) !in names
  }

  lemma {:induction false} FirstLoweredShift(cols: seq<string>, names: seq<string>, v: string)
    requires |cols| > 0 && Lower(cols[0]) !in names
    requires FirstLowered(cols[1..], names, v)
    ensures FirstLowered(cols, names, v)
  {
    var k :| 0 <= k < |cols[1..]| && cols[1..][k] == v && Lower(v) in names
      && forall j :: 0 <= j < k ==> Lower(cols[1..][j]) !in names;
    assert cols[k + 1] == v;
    forall j | 0 <= j < k + 1 ensures Lower(cols[j]) !in names {
      if j > 0 { assert cols[j] == cols[1..][j - 1]; }
    }
  }

  /** The column-order scan in `main`: the first column whose lower-cased
      name is one of `names`, or None when there is none. */
  function FirstLowerMatch(cols: seq<string>, names: seq<string>): (r: Option<string>)
    ensures r.None? <==> forall k :: 0 <= k < |cols| ==> Lower(cols[k]) !in names
    ensures r.Some? ==> FirstLowered(cols, names, r.value)
  {
    if |cols| == 0 then None
    else if Lower(cols[0]) in names then
      assert cols[0] == cols[0];
      Some(cols[0])
    else
      var r := FirstLowerMatch(cols[1..], names);
      assert forall k :: 1 <= k < |cols| ==> cols[k] == cols[1..][k - 1];
      if r.Some? then FirstLoweredShift(cols, names, r.value); r else r
  }

  /** The columns the runner reads from each row. */
  datatype Columns = Columns(image: string, command: Option<string>, id: Option<string>)

  /** The image column: a non-empty `--image-col` is taken as given; otherwise
      the first accepted name, in name order, that is exactly a column;
      otherwise the first column, in column order, whose lower-cased name is
      accepted; otherwise none. */
  function ImageColumn(cols: seq<string>, imageFlag: Option<string>): Option<string> {
    if Truthy(imageFlag) then imageFlag
    else
      match ChooseColumn(cols, NamesPresent(ImageNames, cols))
      case Some(c) => Some(c)
      case None => FirstLowerMatch(cols, ImageNames)
  }

  /** Column detection in `main` as written. `--cmd-col` and `--id-col` are
      parsed, but the command and identifier columns are always re-detected
      from the table and the flags are overwritten. */
  function DetectColumnsAsWritten(cols: seq<string>, imageFlag: Option<string>,
                                  commandFlag: Option<string>, idFlag: Option<string>): (r: Result<Columns>)
    ensures r.Raised? <==> ImageColumn(cols, imageFlag).None?
    ensures r.Ok? ==> r.value.image == ImageColumn(cols, imageFlag).value
    ensures r.Ok? ==> r.value.command == FirstLowerMatch(cols, CommandNames)
    ensures r.Ok? ==> r.value.id == FirstLowerMatch(cols, IdNames)
  {
    match ImageColumn(cols, imageFlag)
    case None => Raised(SystemExit)
    case Some(image) => Ok(Columns(image, FirstLowerMatch(cols, CommandNames), FirstLowerMatch(cols, IdNames)))
  }

  /** Column detection with every explicit flag honoured the way
      `--image-col` already is. */
  function DetectColumns(cols: seq<string>, imageFlag: Option<string>,
                         commandFlag: Option<string>, idFlag: Option<string>): (r: Result<Columns>)
    ensures r.Raised? <==> ImageColumn(cols, imageFlag).None?
    ensures r.Ok? ==> r.value.image == ImageColumn(cols, imageFlag).value
    ensures r.Ok? && Truthy(commandFlag) ==> r.value.command == commandFlag
    ensures r.Ok? && Truthy(idFlag) ==> r.value.id == idFlag
    ensures !Truthy(commandFlag) && !Truthy(idFlag) ==>
      r == DetectColumnsAsWritten(cols, imageFlag, commandFlag, idFlag)
  {
    match ImageColumn(cols, imageFlag)
    case None => Raised(SystemExit)
    case Some(image) =>
      var command := if Truthy(commandFlag) then commandFlag else FirstLowerMatch(cols, CommandNames);
      var id := if Truthy(idFlag) then idFlag else FirstLowerMatch(cols, IdNames);
      Ok(Columns(image, command, id))
  }

  /** The image column is found exactly when a non-empty flag names it or
      some column's lower-cased name is accepted; a found column is the flag
      or such a column, and an exactly-named column beats a differently-cased
      one. */
  lemma ImageColumnFound(cols: seq<string>, imageFlag: Option<string>)
    ensures ImageColumn(cols, imageFlag).Some? <==>
      Truthy(imageFlag) || exists k :: 0 <= k < |cols| && Lower(cols[k]) in ImageNames
    ensures !Truthy(imageFlag) && ImageColumn(cols, imageFlag).Some? ==>
      ImageColumn(cols, imageFlag).value in cols && Lower(ImageColumn(cols, imageFlag).value) in ImageNames
    ensures !Truthy(imageFlag) && (exists k :: 0 <= k < |ImageNames| && ImageNames[k] in cols) ==>
      ImageColumn(cols, imageFlag).value in ImageNames
  {
    // Every accepted name is already lower case.
    forall k | 0 <= k < |ImageNames| ensures Lower(ImageNames[k]) == ImageNames[k] {
      var n := ImageNames[k];
      assert forall i :: 0 <= i < |n| ==> 'a' <= n[i] <= 'z' || n[i] == '_';
    }
    if !Truthy(imageFlag) {
      var exact := ChooseColumn(cols, NamesPresent(ImageNames, cols));
      if exact.Some? {
        assert exact.value in ImageNames;
        var k :| 0 <= k < |ImageNames| && ImageNames[k] == exact.value;
        assert Lower(exact.value) in ImageNames;
        var c :| 0 <= c < |cols| && cols[c] == exact.value;
        assert Lower(cols[c]) in ImageNames;
      } else {
        var present := NamesPresent(ImageNames, cols);
        assert forall c :: c in ImageNames && c in cols ==> c in present;
      }
    }
  }

  /** An explicit identifier column is ignored as written: with both
      "pair_id" and "bugswarm_id" present and `--id-col bugswarm_id`, the
      detected identifier column is "pair_id"; the corrected detection uses
      "bugswarm_id". */
  lemma IdFlagIgnored()
    ensures DetectColumnsAsWritten(["pair_id", "bugswarm_id", "image"], None, None, Some("bugswarm_id")).value.id == Some("pair_id")
    ensures DetectColumns(["pair_id", "bugswarm_id", "image"], None, None, Some("bugswarm_id")).value.id == Some("bugswarm_id")
  {
    var cols := ["pair_id", "bugswarm_id", "image"];
    assert Lower(cols[0]) == "pair_id";
    assert ImageColumn(cols, None) == Some("image") by {
      assert "image" in cols;
      assert NamesPresent(ImageNames, cols)[0] == "image";
    }
  }
}
