/**
  Concrete cases proved about the model: a logon event with
  `System.EventID`, `System.Provider.Name` and `Level`, the sort order of
  a few keys, two columns sharing a label, two paths colliding through a
  dotted field name, and an empty input.
 */
module Scenarios {
  import opened Strings
  import opened Flatten
  import opened Schema
  import opened Convert

  function ProviderFields(): Dict
  {
    [Field("Name", Scalar("Security"))]
  }

  function SystemFields(): Dict
  {
    [Field("EventID", Scalar("4624")), Field("Provider", Node(ProviderFields()))]
  }

  /** A logon event: a nested System dictionary and a top-level Level. */
  function LogonEvent(): Dict
  {
    [Field("System", Node(SystemFields())), Field("Level", Scalar("4"))]
  }

  lemma ProviderLeaves()
    ensures Leaves("System.Provider", ProviderFields()) == [("System.Provider.Name", "Security")]
  {
    var d := ProviderFields();
    assert d[..1][..0] == [] && d[..1] == d;
    assert FullKey("System.Provider", "Name") == "System.Provider.Name";
  }

  lemma SystemLeaves()
    ensures Leaves("System", SystemFields()) ==
      [("System.EventID", "4624"), ("System.Provider.Name", "Security")]
  {
    var d := SystemFields();
    assert d[..2][..1] == d[..1] && d[..1][..0] == [] && d[..2] == d;
    assert FullKey("System", "EventID") == "System.EventID";
    assert FullKey("System", "Provider") == "System.Provider";
    ProviderLeaves();
  }

  lemma LogonLeaves()
    ensures Leaves("", LogonEvent()) ==
      [("System.EventID", "4624"), ("System.Provider.Name", "Security"), ("Level", "4")]
  {
    var d := LogonEvent();
    assert d[..2][..1] == d[..1] && d[..1][..0] == [] && d[..2] == d;
    SystemLeaves();
    assert Leaves("", d[..1]) == Leaves("System", SystemFields());
  }

  lemma LogonEventFlattened()
    ensures Flattened(LogonEvent()) ==
      map["System.EventID" := "4624", "System.Provider.Name" := "Security", "Level" := "4"]
  {
    LogonLeaves();
    var cells := Leaves("", LogonEvent());
    assert cells[..2][..1] == cells[..1] && cells[..1][..0] == [];
    assert Store(map[], cells[..1]) == map["System.EventID" := "4624"];
    assert Store(map[], cells[..2]) == map["System.EventID" := "4624", "System.Provider.Name" := "Security"];
  }

  /** Keys collected in any order come out ascending. */
  lemma KeysSortAscending()
    ensures Columns({"Z.a", "A.b", "A.a"}) == ["A.a", "A.b", "Z.a"]
  {
    var keys := ["A.a", "A.b", "Z.a"];
    assert Less(keys[0], keys[1]) && Less(keys[1], keys[2]);
    LessTransitive(keys[0], keys[1], keys[2]);
    ColumnsUnique({"Z.a", "A.b", "A.a"}, keys);
  }

  /** Two full paths ending in the same name stay two columns, with the
      same label. */
  lemma SharedLabelKeepsBothColumns()
    ensures Columns({"A.Name", "B.Name"}) == ["A.Name", "B.Name"]
    ensures ShortHeader("A.Name") == "Name" && ShortHeader("B.Name") == "Name"
  {
    var keys := ["A.Name", "B.Name"];
    assert Less(keys[0], keys[1]);
    ColumnsUnique({"A.Name", "B.Name"}, keys);
    ShortHeaderOfJoin(["A", "Name"]);
    ShortHeaderOfJoin(["B", "Name"]);
    assert Join(["A", "Name"]) == "A.Name";
    assert Join(["B", "Name"]) == "B.Name";
  }

  /** A field named "a.b" and a field b nested in a field a both flatten to
      the path "a.b"; the later one in key order wins. */
  lemma DottedNameCollision()
    ensures Flattened([Field("a.b", Scalar("1")), Field("a", Node([Field("b", Scalar("2"))]))]) ==
      map["a.b" := "2"]
  {
    var d := [Field("a.b", Scalar("1")), Field("a", Node([Field("b", Scalar("2"))]))];
    var inner := d[1].value.fields;
    assert d[..2][..1] == d[..1] && d[..1][..0] == [] && d[..2] == d;
    assert inner[..1][..0] == [] && inner[..1] == inner;
    assert FullKey("a", "b") == "a.b";
    assert Leaves("a", inner) == [("a.b", "2")];
    assert Leaves("", d[..1]) == [("a.b", "1")];
    var cells := Leaves("", d);
    assert cells == [("a.b", "1"), ("a.b", "2")];
    assert cells[..1][..0] == [];
  }

  /** No events: no records, no columns, so a header-only output. */
  lemma EmptyInputHasNoColumns()
    ensures Records(Events([])) == []
    ensures Columns(Universe(Records(Events([])))) == []
  {
  }
}
