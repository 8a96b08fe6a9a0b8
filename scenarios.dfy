/** Small worked scenarios: concrete exports and what the scripts make of them. */
module Scenarios {
  import opened Strings
  import opened Frameworks
  import opened Catalog
  import opened CsvConverter

  /** Two rows of the wide table naming different controls in one column give a framework
      with one ET per control. */
  lemma WideTableExample()
    ensures ColumnFramework([["T1", "", "", "catA"], ["T2", "", "", "catB"]], 3)
            == map["catA" := ["T1"], "catB" := ["T2"]]
  {
  }

  lemma SplitTwoNames()
    ensures Split("FW-A\nFW-B") == ["FW-A", "FW-B"]
  {
    SplitJoin(["FW-A", "FW-B"]);
    assert Join(["FW-A", "FW-B"]) == "FW-A\nFW-B";
  }

  /** A control listed under two frameworks (one name per line of its cell) is registered,
      with no ETs yet, under both. */
  lemma CatalogExample(crow: seq<string>)
    requires |crow| > 6 && crow[1] == "C1" && crow[6] == "FW-A\nFW-B"
    ensures Universe([crow]) == map["FW-A" := map["C1" := []], "FW-B" := map["C1" := []]]
  {
    SplitTwoNames();
    var names := ["FW-A", "FW-B"];
    assert [crow][..0] == [];
    assert Universe([crow]) == RegisterUnder(map[], names, "C1");
    assert names[..1] == ["FW-A"] && names[..1][..0] == [];
    assert RegisterUnder(map[], names[..1], "C1") == map["FW-A" := map["C1" := []]];
  }

  /** Comparing frameworks: the ETs of one framework complete a control whose only ET is
      among them and leave a control whose only ET is elsewhere outstanding. */
  lemma ComparisonExample()
    ensures EtIds(map["C1" := ["E1", "E2"], "C2" := []]) == {"E1", "E2"}
    ensures ClassifiedAs(map["C3" := ["E1"], "C4" := ["E9"]], {"E1", "E2"}, Collected) == {"C3"}
    ensures ClassifiedAs(map["C3" := ["E1"], "C4" := ["E9"]], {"E1", "E2"}, Partial) == {}
    ensures ClassifiedAs(map["C3" := ["E1"], "C4" := ["E9"]], {"E1", "E2"}, Outstanding) == {"C4"}
  {
    var a: Framework := map["C1" := ["E1", "E2"], "C2" := []];
    assert "E1" in a["C1"] && "E2" in a["C1"];
    forall e | e in EtIds(a) ensures e in {"E1", "E2"} {
      var c :| c in a && e in a[c];
    }
    var b: Framework := map["C3" := ["E1"], "C4" := ["E9"]];
    assert Classify(b["C3"], {"E1", "E2"}) == Collected;
    assert Classify(b["C4"], {"E1", "E2"}) == Outstanding;
  }
}
