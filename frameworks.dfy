/** What both comparison scripts share: a framework maps each control name to the list of
    evidence-task (ET) ids it requires; the ET ids a set of frameworks implements; the three-way
    coverage test of one control; and the dictionary update `add_to_framework_dict`. */
module Frameworks {

  /** A framework as the scripts hold it: control name -> ET ids, in insertion order. */
  type Framework = map<string, seq<string>>

  /** The key that `examine_ETs.py` stores a framework's name under. */
  const Label: string := "label"

  /** Every ET id that occurs in some control list of `fw`. */
  function EtIds(fw: Framework): set<string>
  {
    set c, e | c in fw && e in fw[c] :: e
  }

  /** Every ET id that occurs in some control list of some framework of `fws`. */
  function AllEtIds(fws: seq<Framework>): set<string>
    decreases |fws|
  {
    if fws == [] then {} else AllEtIds(fws[..|fws| - 1]) + EtIds(fws[|fws| - 1])
  }

  /** The union is taken framework by framework: an id is in it iff one of the frameworks has it. */
  lemma {:induction false} AllEtIdsMember(fws: seq<Framework>, e: string)
    ensures e in AllEtIds(fws) <==> exists i :: 0 <= i < |fws| && e in EtIds(fws[i])
    decreases |fws|
  {
    if fws != [] {
      var n := |fws| - 1;
      AllEtIdsMember(fws[..n], e);
      if e in AllEtIds(fws[..n]) {
        var i :| 0 <= i < n && e in EtIds(fws[..n][i]);
        assert fws[i] == fws[..n][i];
      }
      if exists i :: 0 <= i < |fws| && e in EtIds(fws[i]) {
        var i :| 0 <= i < |fws| && e in EtIds(fws[i]);
        if i < n {
          assert fws[..n][i] == fws[i];
        }
      }
    }
  }

  /** Passing two lists of frameworks one after the other gives the union of the two results. */
  lemma AllEtIdsConcat(a: seq<Framework>, b: seq<Framework>)
    ensures AllEtIds(a + b) == AllEtIds(a) + AllEtIds(b)
  {
    forall e
      ensures e in AllEtIds(a + b) <==> e in AllEtIds(a) + AllEtIds(b)
    {
      AllEtIdsMember(a + b, e);
      AllEtIdsMember(a, e);
      AllEtIdsMember(b, e);
      if exists i :: 0 <= i < |a + b| && e in EtIds((a + b)[i]) {
        var i :| 0 <= i < |a + b| && e in EtIds((a + b)[i]);
        if i >= |a| {
          assert (a + b)[i] == b[i - |a|];
        }
      }
      if exists i :: 0 <= i < |a| && e in EtIds(a[i]) {
        var i :| 0 <= i < |a| && e in EtIds(a[i]);
        assert (a + b)[i] == a[i];
      }
      if exists i :: 0 <= i < |b| && e in EtIds(b[i]) {
        var i :| 0 <= i < |b| && e in EtIds(b[i]);
        assert (a + b)[|a| + i] == b[i];
      }
    }
  }

  /** The union does not depend on the order (or the grouping) of the frameworks passed. */
  lemma AllEtIdsReorder(a: seq<Framework>, b: seq<Framework>)
    requires multiset(a) == multiset(b)
    ensures AllEtIds(a) == AllEtIds(b)
  {
    forall e
      ensures e in AllEtIds(a) ==> e in AllEtIds(b)
      ensures e in AllEtIds(b) ==> e in AllEtIds(a)
    {
      AllEtIdsMember(a, e);
      AllEtIdsMember(b, e);
      if e in AllEtIds(a) {
        var i :| 0 <= i < |a| && e in EtIds(a[i]);
        assert a[i] in multiset(b);
        var j :| 0 <= j < |b| && b[j] == a[i];
      }
      if e in AllEtIds(b) {
        var i :| 0 <= i < |b| && e in EtIds(b[i]);
        assert b[i] in multiset(a);
        var j :| 0 <= j < |a| && a[j] == b[i];
      }
    }
  }

  /** Python's `all(ET_id in implemented for ET_id in ets)`. */
  function AllImplemented(ets: seq<string>, implemented: set<string>): bool
    decreases |ets|
  {
    ets == [] || (ets[0] in implemented && AllImplemented(ets[1..], implemented))
  }

  /** Python's `any(ET_id in implemented for ET_id in ets)`. */
  function AnyImplemented(ets: seq<string>, implemented: set<string>): bool
    decreases |ets|
  {
    ets != [] && (ets[0] in implemented || AnyImplemented(ets[1..], implemented))
  }

  lemma {:induction false} AllImplementedMeans(ets: seq<string>, implemented: set<string>)
    ensures AllImplemented(ets, implemented) <==> forall i :: 0 <= i < |ets| ==> ets[i] in implemented
    decreases |ets|
  {
    if ets != [] {
      AllImplementedMeans(ets[1..], implemented);
      assert forall i :: 1 <= i < |ets| ==> ets[i] == ets[1..][i - 1];
    }
  }

  lemma {:induction false} AnyImplementedMeans(ets: seq<string>, implemented: set<string>)
    ensures AnyImplemented(ets, implemented) <==> exists i :: 0 <= i < |ets| && ets[i] in implemented
    decreases |ets|
  {
    if ets != [] {
      AnyImplementedMeans(ets[1..], implemented);
      if exists i :: 0 <= i < |ets| && ets[i] in implemented {
        var i :| 0 <= i < |ets| && ets[i] in implemented;
        if i > 0 {
          assert ets[1..][i - 1] == ets[i];
        }
      }
    }
  }

  /** The three coverage states of a control. */
  datatype Status = Collected | Partial | Outstanding

  /** The test both scripts apply to one control's ET list: `all` first, then `any`. */
  function Classify(ets: seq<string>, implemented: set<string>): Status
  {
    if AllImplemented(ets, implemented) then Collected
    else if AnyImplemented(ets, implemented) then Partial
    else Outstanding
  }

  /** Collected exactly when every required ET id is implemented (so always for an empty list). */
  lemma ClassifyCollected(ets: seq<string>, implemented: set<string>)
    ensures Classify(ets, implemented) == Collected <==> (forall e :: e in ets ==> e in implemented)
  {
    AllImplementedMeans(ets, implemented);
  }

  /** Partial exactly when some, but not every, required ET id is implemented. */
  lemma ClassifyPartial(ets: seq<string>, implemented: set<string>)
    ensures Classify(ets, implemented) == Partial <==>
            (exists e :: e in ets && e in implemented) && !(forall e :: e in ets ==> e in implemented)
  {
    AllImplementedMeans(ets, implemented);
    AnyImplementedMeans(ets, implemented);
  }

  /** Outstanding exactly when the list is non-empty and no required ET id is implemented. */
  lemma ClassifyOutstanding(ets: seq<string>, implemented: set<string>)
    ensures Classify(ets, implemented) == Outstanding <==>
            ets != [] && forall e :: e in ets ==> e !in implemented
  {
    AllImplementedMeans(ets, implemented);
    AnyImplementedMeans(ets, implemented);
    if ets != [] && forall e :: e in ets ==> e !in implemented {
      assert ets[0] in ets;
    }
  }

  /** How far along a status is: outstanding, partial, collected. */
  function Rank(st: Status): nat
  {
    match st
    case Outstanding => 0
    case Partial => 1
    case Collected => 2
  }

  /** Implementing more ET ids never moves a control backwards: a collected control stays
      collected, and a partial one never becomes outstanding. */
  lemma ClassifyMonotone(ets: seq<string>, implemented: set<string>, more: set<string>)
    requires implemented <= more
    ensures Rank(Classify(ets, implemented)) <= Rank(Classify(ets, more))
  {
    ClassifyCollected(ets, implemented);
    ClassifyCollected(ets, more);
    ClassifyOutstanding(ets, implemented);
    ClassifyOutstanding(ets, more);
  }

  /** The controls of `fw` that `Classify` puts in state `st`. */
  function ClassifiedAs(fw: Framework, implemented: set<string>, st: Status): set<string>
  {
    set c | c in fw && Classify(fw[c], implemented) == st
  }

  /** The three buckets partition the controls; so their sizes add up to the number of controls. */
  lemma ClassifiedPartition(fw: Framework, implemented: set<string>)
    ensures ClassifiedAs(fw, implemented, Collected) !! ClassifiedAs(fw, implemented, Partial)
    ensures ClassifiedAs(fw, implemented, Collected) !! ClassifiedAs(fw, implemented, Outstanding)
    ensures ClassifiedAs(fw, implemented, Partial) !! ClassifiedAs(fw, implemented, Outstanding)
    ensures ClassifiedAs(fw, implemented, Collected) + ClassifiedAs(fw, implemented, Partial)
            + ClassifiedAs(fw, implemented, Outstanding) == fw.Keys
    ensures |ClassifiedAs(fw, implemented, Collected)| + |ClassifiedAs(fw, implemented, Partial)|
            + |ClassifiedAs(fw, implemented, Outstanding)| == |fw.Keys|
  {
  }

  /** Implementing more ET ids never shrinks the collected bucket nor grows the outstanding one. */
  lemma ClassifiedMonotone(fw: Framework, implemented: set<string>, more: set<string>)
    requires implemented <= more
    ensures ClassifiedAs(fw, implemented, Collected) <= ClassifiedAs(fw, more, Collected)
    ensures ClassifiedAs(fw, more, Outstanding) <= ClassifiedAs(fw, implemented, Outstanding)
    ensures |ClassifiedAs(fw, implemented, Collected)| <= |ClassifiedAs(fw, more, Collected)|
  {
    forall c | c in fw
      ensures Rank(Classify(fw[c], implemented)) <= Rank(Classify(fw[c], more))
    {
      ClassifyMonotone(fw[c], implemented, more);
    }
    var small, large := ClassifiedAs(fw, implemented, Collected), ClassifiedAs(fw, more, Collected);
    assert small <= large;
    assert large == small + (large - small);
    assert small * (large - small) == {};
  }

  /** Against its own ET ids every control of a framework is collected. */
  lemma SelfCovered(fw: Framework)
    ensures ClassifiedAs(fw, EtIds(fw), Collected) == fw.Keys
    ensures ClassifiedAs(fw, EtIds(fw), Partial) == {}
    ensures ClassifiedAs(fw, EtIds(fw), Outstanding) == {}
  {
    forall c | c in fw
      ensures Classify(fw[c], EtIds(fw)) == Collected
    {
      ClassifyCollected(fw[c], EtIds(fw));
    }
  }

  /** No control name is listed twice. */
  predicate NoDuplicates(s: seq<string>)
  {
    forall i, j :: 0 <= i < j < |s| ==> s[i] != s[j]
  }

  /** A list without duplicates is as long as the set of its elements is large. */
  lemma {:induction false} NoDuplicatesCard(s: seq<string>)
    requires NoDuplicates(s)
    ensures |set x | x in s| == |s|
    decreases |s|
  {
    if s != [] {
      var n := |s| - 1;
      NoDuplicatesCard(s[..n]);
      assert s == s[..n] + [s[n]];
      assert (set x | x in s) == (set x | x in s[..n]) + {s[n]};
      assert s[n] !in s[..n];
    }
  }

  lemma NoDuplicatesAppend(s: seq<string>, x: string)
    requires NoDuplicates(s) && x !in s
    ensures NoDuplicates(s + [x])
  {
    forall i, j | 0 <= i < j < |s + [x]|
      ensures (s + [x])[i] != (s + [x])[j]
    {
      assert (s + [x])[i] == s[i];
      if j == |s| {
        assert s[i] in s;
      } else {
        assert (s + [x])[j] == s[j];
      }
    }
  }

  /** Lists without duplicates and without common elements concatenate without duplicates. */
  lemma NoDuplicatesConcat(a: seq<string>, b: seq<string>)
    requires NoDuplicates(a) && NoDuplicates(b)
    requires forall x :: x in a ==> x !in b
    ensures NoDuplicates(a + b)
  {
    forall i, j | 0 <= i < j < |a + b|
      ensures (a + b)[i] != (a + b)[j]
    {
      if i < |a| && j >= |a| {
        assert (a + b)[i] in a && (a + b)[j] == b[j - |a|];
      }
    }
  }

  /** `add_to_framework_dict(ET_id, control, framework)`, as a value: an empty control name is
      ignored; otherwise `ET_id` is appended to the control's list, which is created if absent. */
  function Added(fw: Framework, etId: string, control: string): (r: Framework)
    ensures control == "" ==> r == fw
    ensures control != "" ==> r.Keys == fw.Keys + {control}
    ensures control != "" && control in fw ==> r[control] == fw[control] + [etId]
    ensures control != "" && control !in fw ==> r[control] == [etId]
    ensures forall k :: k in fw && k != control ==> r[k] == fw[k]
  {
    if control != "" then
      if control in fw then fw[control := fw[control] + [etId]]
      else fw[control := [etId]]
    else fw
  }

  /** Adds every ET id of `fw` to `acc`, one control after another: the inner loop of
      `find_implemented_ETs` and the first loop of `get_framework_ETs`. */
  method AddFrameworkEts(fw: Framework, acc: set<string>) returns (r: set<string>)
    ensures r == acc + EtIds(fw)
  {
    r := acc;
    var remaining := fw.Keys;
    while remaining != {}
      invariant remaining <= fw.Keys
      invariant r == acc + (set c, e | c in fw.Keys - remaining && e in fw[c] :: e)
      decreases |remaining|
    {
      var control :| control in remaining;
      var ets := fw[control];
      ghost var before := r;
      for k := 0 to |ets|
        invariant r == before + set j | 0 <= j < k :: ets[j]
      {
        r := r + {ets[k]};
      }
      assert r == before + set e | e in ets;
      remaining := remaining - {control};
    }
  }

  /** A framework dictionary that `add_to_framework_dict` updates in place. */
  class FrameworkTable {
    var controls: Framework

    constructor ()
      ensures controls == map[]
    {
      controls := map[];
    }

    /** `add_to_framework_dict(ET_id, control, self)`. */
    method Add(etId: string, control: string)
      modifies this
      ensures controls == Added(old(controls), etId, control)
      ensures control == "" ==> controls == old(controls)
      ensures forall k :: k in old(controls) && k != control ==> controls[k] == old(controls)[k]
    {
      if control != "" {
        if control in controls {
          var etList := controls[control];
          etList := etList + [etId];
          controls := controls[control := etList];
        } else {
          controls := controls[control := [etId]];
        }
      }
    }
  }
}
