/** The coverage side of `examine_ETs.py`: the ET ids implemented by a list of frameworks, the
    three-way split of a target framework's controls, the counts reported for it, and the
    trust-service-category filter. */
module ExamineEts {
  import opened Strings
  import opened Frameworks

  /** The ids held in a list, as a set: membership in the sorted list is membership in it. */
  function Members(xs: seq<string>): set<string>
  {
    set e | e in xs
  }

  /** `find_implemented_ETs`: every ET id of every given framework, sorted, each once. */
  method FindImplementedEts(frameworkList: seq<Framework>) returns (implementedEts: seq<string>)
    ensures implementedEts == Sorted(AllEtIds(frameworkList))
    ensures StrictlySorted(implementedEts)
    ensures forall e :: e in implementedEts <==>
              exists i :: 0 <= i < |frameworkList| && e in EtIds(frameworkList[i])
  {
    var etSet: set<string> := {};
    for i := 0 to |frameworkList|
      invariant etSet == AllEtIds(frameworkList[..i])
    {
      assert frameworkList[..i + 1][..i] == frameworkList[..i];
      etSet := AddFrameworkEts(frameworkList[i], etSet);
    }
    assert frameworkList[..|frameworkList|] == frameworkList;
    implementedEts := Sorted(etSet);
    forall e {
      AllEtIdsMember(frameworkList, e);
    }
  }

  /** `control_implemented_status`: splits the controls of `fw2` other than `'label'` into
      collected, partially collected and outstanding against the implemented ET ids. */
  method ControlImplementedStatus(implementedEts: seq<string>, fw2: Framework)
    returns (collected: seq<string>, partial: seq<string>, outstanding: seq<string>)
    ensures forall c :: c in collected <==> c in ClassifiedAs(fw2 - {Label}, Members(implementedEts), Collected)
    ensures forall c :: c in partial <==> c in ClassifiedAs(fw2 - {Label}, Members(implementedEts), Partial)
    ensures forall c :: c in outstanding <==> c in ClassifiedAs(fw2 - {Label}, Members(implementedEts), Outstanding)
    ensures NoDuplicates(collected + partial + outstanding)
    ensures forall c :: c in collected + partial + outstanding <==> c in fw2 && c != Label
    ensures |collected| == |ClassifiedAs(fw2 - {Label}, Members(implementedEts), Collected)|
    ensures |partial| == |ClassifiedAs(fw2 - {Label}, Members(implementedEts), Partial)|
    ensures |outstanding| == |ClassifiedAs(fw2 - {Label}, Members(implementedEts), Outstanding)|
    ensures |collected| + |partial| + |outstanding| == |fw2.Keys - {Label}|
  {
    var implemented := Members(implementedEts);
    collected, partial, outstanding := [], [], [];
    var remaining := fw2.Keys;
    while remaining != {}
      invariant remaining <= fw2.Keys
      invariant forall c :: c in collected <==>
                  c in fw2 && c !in remaining && c != Label && Classify(fw2[c], implemented) == Collected
      invariant forall c :: c in partial <==>
                  c in fw2 && c !in remaining && c != Label && Classify(fw2[c], implemented) == Partial
      invariant forall c :: c in outstanding <==>
                  c in fw2 && c !in remaining && c != Label && Classify(fw2[c], implemented) == Outstanding
      invariant NoDuplicates(collected) && NoDuplicates(partial) && NoDuplicates(outstanding)
      decreases |remaining|
    {
      var control :| control in remaining;
      remaining := remaining - {control};
      if control == Label {
        continue;
      }
      var etList := fw2[control];
      if AllImplemented(etList, implemented) {
        NoDuplicatesAppend(collected, control);
        collected := collected + [control];
      } else if AnyImplemented(etList, implemented) {
        NoDuplicatesAppend(partial, control);
        partial := partial + [control];
      } else {
        NoDuplicatesAppend(outstanding, control);
        outstanding := outstanding + [control];
      }
    }
    BucketsComplete(fw2 - {Label}, implemented, collected, partial, outstanding);
  }

  /** Three duplicate-free lists holding exactly the three buckets of `target` partition its
      controls, each bucket's list as long as the bucket. */
  lemma BucketsComplete(target: Framework, implemented: set<string>,
                        collected: seq<string>, partial: seq<string>, outstanding: seq<string>)
    requires NoDuplicates(collected) && NoDuplicates(partial) && NoDuplicates(outstanding)
    requires forall c :: c in collected <==> c in ClassifiedAs(target, implemented, Collected)
    requires forall c :: c in partial <==> c in ClassifiedAs(target, implemented, Partial)
    requires forall c :: c in outstanding <==> c in ClassifiedAs(target, implemented, Outstanding)
    ensures NoDuplicates(collected + partial + outstanding)
    ensures forall c :: c in collected + partial + outstanding <==> c in target
    ensures |collected| == |ClassifiedAs(target, implemented, Collected)|
    ensures |partial| == |ClassifiedAs(target, implemented, Partial)|
    ensures |outstanding| == |ClassifiedAs(target, implemented, Outstanding)|
    ensures |collected| + |partial| + |outstanding| == |target.Keys|
  {
    assert (set c | c in collected) == ClassifiedAs(target, implemented, Collected);
    assert (set c | c in partial) == ClassifiedAs(target, implemented, Partial);
    assert (set c | c in outstanding) == ClassifiedAs(target, implemented, Outstanding);
    NoDuplicatesCard(collected);
    NoDuplicatesCard(partial);
    NoDuplicatesCard(outstanding);
    NoDuplicatesConcat(collected, partial);
    NoDuplicatesConcat(collected + partial, outstanding);
    ClassifiedPartition(target, implemented);
  }

  /** The counts `compare_framework_ETs` reports: `col_num`, `par_num`, `out_num` and their sum
      `all_num`, for the ET ids implemented by `frameworkList` against `fw2`. */
  method CompareFrameworkEts(frameworkList: seq<Framework>, fw2: Framework)
    returns (colNum: nat, parNum: nat, outNum: nat, allNum: nat)
    ensures colNum == |ClassifiedAs(fw2 - {Label}, AllEtIds(frameworkList), Collected)|
    ensures parNum == |ClassifiedAs(fw2 - {Label}, AllEtIds(frameworkList), Partial)|
    ensures outNum == |ClassifiedAs(fw2 - {Label}, AllEtIds(frameworkList), Outstanding)|
    ensures allNum == colNum + parNum + outNum
    ensures allNum == |fw2.Keys - {Label}|
  {
    var implementedEts := FindImplementedEts(frameworkList);
    assert Members(implementedEts) == AllEtIds(frameworkList);
    var collected, partial, outstanding := ControlImplementedStatus(implementedEts, fw2);
    colNum := |collected|;
    parNum := |partial|;
    outNum := |outstanding|;
    allNum := colNum + parNum + outNum;
  }

  /** `contains_TSC(group_codes, check_code)`: an empty code accepts every row; otherwise the
      code must be one of the newline-separated group codes. */
  function ContainsTsc(groupCodes: string, checkCode: string): bool
  {
    if checkCode == "" then true
    else
      var codes := Split(groupCodes);
      if checkCode in codes then true else false
  }

  /** On a cell written as newline-joined codes, `contains_TSC` is membership among those codes. */
  lemma ContainsTscJoined(codes: seq<string>, checkCode: string)
    requires |codes| >= 1
    requires forall i :: 0 <= i < |codes| ==> '\n' !in codes[i]
    ensures ContainsTsc(Join(codes), checkCode) <==> checkCode == "" || checkCode in codes
  {
    SplitJoin(codes);
  }

  /** A non-empty code that itself contains a newline never matches. */
  lemma ContainsTscNewline(groupCodes: string, checkCode: string)
    requires '\n' in checkCode
    ensures !ContainsTsc(groupCodes, checkCode)
  {
    SplitPiecesHaveNoNewline(groupCodes);
  }
}
