/** Catalog mode of `examine_ETs.py`: the control export registers every control under each
    framework it belongs to (`create_dict_of_frameworks`), then the evidence-task export appends
    each ET id to the registered controls it satisfies (`fill_frameworks_with_ets`).
    Rows are the already-parsed CSV data rows, header removed. */
module Catalog {
  import opened Strings
  import opened Frameworks

  /** Framework name -> framework. */
  type FrameworkDicts = map<string, Framework>

  /** `n` copies of `e`. */
  function Repeat(e: string, n: nat): (r: seq<string>)
    ensures |r| == n && forall i :: 0 <= i < n ==> r[i] == e
  {
    seq(n, _ => e)
  }

  lemma RepeatAdd(e: string, a: nat, b: nat)
    ensures Repeat(e, a) + Repeat(e, b) == Repeat(e, a + b)
  {
  }

  // ---------------------------------------------------------------------------------------
  // create_dict_of_frameworks

  /** `framework[control] = []` in the framework called `name`, which is created if new. */
  function Register(fds: FrameworkDicts, name: string, control: string): FrameworkDicts
  {
    if name in fds then fds[name := fds[name][control := []]]
    else fds[name := map[control := []]]
  }

  /** One registration for each framework name, in the order the names are listed. */
  function RegisterUnder(fds: FrameworkDicts, names: seq<string>, control: string): FrameworkDicts
    decreases |names|
  {
    if names == [] then fds
    else Register(RegisterUnder(fds, names[..|names| - 1], control), names[|names| - 1], control)
  }

  /** Every control-export row is read up to column 6 (the framework names). */
  predicate ControlRowsOk(rows: seq<seq<string>>)
  {
    forall i :: 0 <= i < |rows| ==> |rows[i]| > 6
  }

  /** What `create_dict_of_frameworks` returns for the given data rows: a row with an empty
      column 6 is skipped; otherwise column 1 (the control) is registered under every name of
      `row[6].split('\n')`. */
  function Universe(rows: seq<seq<string>>): FrameworkDicts
    requires ControlRowsOk(rows)
    decreases |rows|
  {
    if rows == [] then map[]
    else
      var prev := Universe(rows[..|rows| - 1]);
      var row := rows[|rows| - 1];
      if row[6] != "" then RegisterUnder(prev, Split(row[6]), row[1]) else prev
  }

  /** Row `i` lists framework `f` in its column 6. */
  ghost predicate ListsFramework(rows: seq<seq<string>>, i: int, f: string)
    requires ControlRowsOk(rows)
  {
    0 <= i < |rows| && rows[i][6] != "" && f in Split(rows[i][6])
  }

  lemma {:induction false} RegisterUnderEffect(fds: FrameworkDicts, names: seq<string>, control: string, f: string, c: string)
    ensures f in RegisterUnder(fds, names, control) <==> f in fds || f in names
    ensures f in RegisterUnder(fds, names, control) ==>
              (c in RegisterUnder(fds, names, control)[f] <==>
                 (f in fds && c in fds[f]) || (f in names && c == control))
    ensures f in RegisterUnder(fds, names, control) && c in RegisterUnder(fds, names, control)[f] ==>
              RegisterUnder(fds, names, control)[f][c] ==
                (if f in names && c == control then [] else fds[f][c])
    decreases |names|
  {
    if names != [] {
      var n := |names| - 1;
      RegisterUnderEffect(fds, names[..n], control, f, c);
      assert names == names[..n] + [names[n]];
      assert f in names <==> f in names[..n] || f == names[n];
    }
  }

  /** A row of a prefix lists the same frameworks as that row of the whole. */
  lemma ListsFrameworkPrefix(rows: seq<seq<string>>, n: nat, i: int, f: string)
    requires ControlRowsOk(rows) && n <= |rows| && 0 <= i < n
    ensures ControlRowsOk(rows[..n])
    ensures ListsFramework(rows[..n], i, f) <==> ListsFramework(rows, i, f)
  {
    assert rows[..n][i] == rows[i];
  }

  /** A framework and control listed by some row is registered. */
  lemma {:induction false} ListedIsRegistered(rows: seq<seq<string>>, i: int, f: string)
    requires ControlRowsOk(rows) && ListsFramework(rows, i, f)
    ensures f in Universe(rows) && rows[i][1] in Universe(rows)[f]
    decreases |rows|
  {
    var n := |rows| - 1;
    var prefix := rows[..n];
    var row := rows[n];
    var names := if row[6] != "" then Split(row[6]) else [];
    assert Universe(rows) == RegisterUnder(Universe(prefix), names, row[1]);
    RegisterUnderEffect(Universe(prefix), names, row[1], f, rows[i][1]);
    if i < n {
      ListsFrameworkPrefix(rows, n, i, f);
      ListedIsRegistered(prefix, i, f);
      assert prefix[i][1] == rows[i][1];
    }
  }

  /** A registered control comes from a row that lists its framework; its list is empty. */
  lemma {:induction false} RegisteredIsListed(rows: seq<seq<string>>, f: string, c: string) returns (i: int)
    requires ControlRowsOk(rows) && f in Universe(rows) && c in Universe(rows)[f]
    ensures ListsFramework(rows, i, f) && rows[i][1] == c
    ensures Universe(rows)[f][c] == []
    decreases |rows|
  {
    var n := |rows| - 1;
    var prefix := rows[..n];
    var row := rows[n];
    var names := if row[6] != "" then Split(row[6]) else [];
    assert Universe(rows) == RegisterUnder(Universe(prefix), names, row[1]);
    RegisterUnderEffect(Universe(prefix), names, row[1], f, c);
    if f in names && c == row[1] {
      i := n;
    } else {
      i := RegisteredIsListed(prefix, f, c);
      ListsFrameworkPrefix(rows, n, i, f);
    }
  }

  /** Every framework of `create_dict_of_frameworks` has at least one control. */
  lemma {:induction false} RegisteredFrameworkHasControl(rows: seq<seq<string>>, f: string) returns (c: string)
    requires ControlRowsOk(rows) && f in Universe(rows)
    ensures c in Universe(rows)[f]
    decreases |rows|
  {
    var n := |rows| - 1;
    var prefix := rows[..n];
    var row := rows[n];
    var names := if row[6] != "" then Split(row[6]) else [];
    assert Universe(rows) == RegisterUnder(Universe(prefix), names, row[1]);
    RegisterUnderEffect(Universe(prefix), names, row[1], f, row[1]);
    if f in names {
      c := row[1];
    } else {
      c := RegisteredFrameworkHasControl(prefix, f);
    }
    RegisterUnderEffect(Universe(prefix), names, row[1], f, c);
  }

  /** `create_dict_of_frameworks` knows exactly the frameworks that some row lists. */
  lemma UniverseFrameworks(rows: seq<seq<string>>, f: string)
    requires ControlRowsOk(rows)
    ensures f in Universe(rows) <==> exists i :: ListsFramework(rows, i, f)
  {
    if f in Universe(rows) {
      var c := RegisteredFrameworkHasControl(rows, f);
      var i := RegisteredIsListed(rows, f, c);
    }
    if exists i :: ListsFramework(rows, i, f) {
      var i :| ListsFramework(rows, i, f);
      ListedIsRegistered(rows, i, f);
    }
  }

  /** A framework of `create_dict_of_frameworks` holds exactly the controls of the rows listing
      it, and every one of them maps to an empty ET list. */
  lemma UniverseControls(rows: seq<seq<string>>, f: string, c: string)
    requires ControlRowsOk(rows)
    requires f in Universe(rows)
    ensures c in Universe(rows)[f] <==> exists i :: ListsFramework(rows, i, f) && rows[i][1] == c
    ensures c in Universe(rows)[f] ==> Universe(rows)[f][c] == []
  {
    if c in Universe(rows)[f] {
      var i := RegisteredIsListed(rows, f, c);
    }
    if exists i :: ListsFramework(rows, i, f) && rows[i][1] == c {
      var i :| ListsFramework(rows, i, f) && rows[i][1] == c;
      ListedIsRegistered(rows, i, f);
    }
  }

  /** The property the script relies on: after a row with a non-empty column 6, every framework
      it names exists and maps the row's control to `[]`. */
  lemma UniverseRegistersRow(rows: seq<seq<string>>, i: int, f: string)
    requires ControlRowsOk(rows)
    requires 0 <= i < |rows| && rows[i][6] != "" && f in Split(rows[i][6])
    ensures f in Universe(rows) && rows[i][1] in Universe(rows)[f]
    ensures Universe(rows)[f][rows[i][1]] == []
  {
    assert ListsFramework(rows, i, f);
    UniverseFrameworks(rows, f);
    UniverseControls(rows, f, rows[i][1]);
  }

  // ---------------------------------------------------------------------------------------
  // fill_frameworks_with_ets

  /** The innermost loop: append `etId` to each listed control that the framework has;
      unknown controls are skipped. */
  function AppendToControls(fw: Framework, controls: seq<string>, etId: string): Framework
    decreases |controls|
  {
    if controls == [] then fw
    else
      var prev := AppendToControls(fw, controls[..|controls| - 1], etId);
      var control := controls[|controls| - 1];
      if control in prev then prev[control := prev[control] + [etId]] else prev
  }

  /** The middle loop: for each listed framework that exists, the innermost loop; unknown
      frameworks are skipped. */
  function FillUnder(fds: FrameworkDicts, names: seq<string>, controls: seq<string>, etId: string): FrameworkDicts
    decreases |names|
  {
    if names == [] then fds
    else
      var prev := FillUnder(fds, names[..|names| - 1], controls, etId);
      var f := names[|names| - 1];
      if f in prev then prev[f := AppendToControls(prev[f], controls, etId)] else prev
  }

  /** Every ET-export row is read up to column 8 (the framework names). */
  predicate EtRowsOk(rows: seq<seq<string>>)
  {
    forall i :: 0 <= i < |rows| ==> |rows[i]| > 8
  }

  /** What `fill_frameworks_with_ets` leaves in `framework_dicts`: for each row, the ET id of
      column 0 goes to the controls of column 7 under the frameworks of column 8. */
  function Filled(fds: FrameworkDicts, rows: seq<seq<string>>): FrameworkDicts
    requires EtRowsOk(rows)
    decreases |rows|
  {
    if rows == [] then fds
    else
      var row := rows[|rows| - 1];
      FillUnder(Filled(fds, rows[..|rows| - 1]), Split(row[8]), Split(row[7]), row[0])
  }

  /** An independent description of what the rows add to control `c` of framework `f`: the ET id
      of each row, in row order, once for every time the row lists `f` times every time it
      lists `c`. */
  function Contributions(rows: seq<seq<string>>, f: string, c: string): seq<string>
    requires EtRowsOk(rows)
    decreases |rows|
  {
    if rows == [] then []
    else
      var row := rows[|rows| - 1];
      Contributions(rows[..|rows| - 1], f, c) + Repeat(row[0], Copies(row, f, c))
  }

  /** How many times one ET-export row appends its id to control `c` of framework `f`. */
  function Copies(row: seq<string>, f: string, c: string): nat
    requires |row| > 8
  {
    Times(multiset(Split(row[8]))[f], multiset(Split(row[7]))[c])
  }

  /** `a * b` behind a function, so that the solver meets the nonlinear product only where a
      lemma unfolds it. */
  function Times(a: nat, b: nat): nat
  {
    a * b
  }

  lemma MultiplySuccessor(a: nat, k: nat)
    ensures Times(a + 1, k) == Times(a, k) + k
  {
  }

  lemma ProductPositive(a: nat, b: nat)
    ensures Times(a, b) > 0 <==> a > 0 && b > 0
  {
    if a > 0 && b > 0 {
      assert a * b >= b;
    }
  }

  lemma {:induction false} AppendToControlsKeys(fw: Framework, controls: seq<string>, etId: string)
    ensures AppendToControls(fw, controls, etId).Keys == fw.Keys
    decreases |controls|
  {
    if controls != [] {
      AppendToControlsKeys(fw, controls[..|controls| - 1], etId);
    }
  }

  /** The innermost loop appends `etId` to a known control once per time the control is listed. */
  lemma {:induction false} AppendToControlsAt(fw: Framework, controls: seq<string>, etId: string, c: string)
    requires c in fw
    ensures c in AppendToControls(fw, controls, etId)
    ensures AppendToControls(fw, controls, etId)[c] == fw[c] + Repeat(etId, multiset(controls)[c])
    decreases |controls|
  {
    if controls == [] {
      assert fw[c] + Repeat(etId, 0) == fw[c];
    } else {
      var n := |controls| - 1;
      AppendToControlsAt(fw, controls[..n], etId, c);
      assert controls == controls[..n] + [controls[n]];
      assert multiset(controls) == multiset(controls[..n]) + multiset{controls[n]};
      RepeatAdd(etId, multiset(controls[..n])[c], 1);
    }
  }

  lemma {:induction false} FillUnderKeys(fds: FrameworkDicts, names: seq<string>, controls: seq<string>, etId: string)
    ensures FillUnder(fds, names, controls, etId).Keys == fds.Keys
    ensures forall f :: f in fds ==> FillUnder(fds, names, controls, etId)[f].Keys == fds[f].Keys
    decreases |names|
  {
    if names != [] {
      var n := |names| - 1;
      var prev := FillUnder(fds, names[..n], controls, etId);
      FillUnderKeys(fds, names[..n], controls, etId);
      if names[n] in prev {
        AppendToControlsKeys(prev[names[n]], controls, etId);
      }
    }
  }

  /** The middle loop appends `etId` to a known control of a known framework once per time the
      framework is listed times once per time the control is listed. */
  lemma {:induction false} FillUnderAt(fds: FrameworkDicts, names: seq<string>, controls: seq<string>, etId: string, f: string, c: string)
    requires f in fds && c in fds[f]
    ensures f in FillUnder(fds, names, controls, etId) && c in FillUnder(fds, names, controls, etId)[f]
    ensures FillUnder(fds, names, controls, etId)[f][c] ==
              fds[f][c] + Repeat(etId, Times(multiset(names)[f], multiset(controls)[c]))
    decreases |names|
  {
    var k := multiset(controls)[c];
    if names == [] {
      assert fds[f][c] + Repeat(etId, 0) == fds[f][c];
    } else {
      var n := |names| - 1;
      var prev := FillUnder(fds, names[..n], controls, etId);
      var a := multiset(names[..n])[f];
      FillUnderAt(fds, names[..n], controls, etId, f, c);
      assert names == names[..n] + [names[n]];
      assert multiset(names) == multiset(names[..n]) + multiset{names[n]};
      if names[n] == f {
        assert multiset(names)[f] == a + 1;
        AppendToControlsAt(prev[f], controls, etId, c);
        MultiplySuccessor(a, k);
        RepeatAdd(etId, Times(a, k), k);
      } else {
        assert multiset(names)[f] == a;
      }
    }
  }

  lemma {:induction false} FilledKeys(fds: FrameworkDicts, rows: seq<seq<string>>)
    requires EtRowsOk(rows)
    ensures Filled(fds, rows).Keys == fds.Keys
    ensures forall f :: f in fds ==> Filled(fds, rows)[f].Keys == fds[f].Keys
    decreases |rows|
  {
    if rows != [] {
      var n := |rows| - 1;
      FilledKeys(fds, rows[..n]);
      FillUnderKeys(Filled(fds, rows[..n]), Split(rows[n][8]), Split(rows[n][7]), rows[n][0]);
    }
  }

  /** After `fill_frameworks_with_ets` a control's list is its old list followed by exactly the
      `Contributions` of the rows. */
  lemma {:induction false} FilledAt(fds: FrameworkDicts, rows: seq<seq<string>>, f: string, c: string)
    requires EtRowsOk(rows)
    requires f in fds && c in fds[f]
    ensures f in Filled(fds, rows) && c in Filled(fds, rows)[f]
    ensures Filled(fds, rows)[f][c] == fds[f][c] + Contributions(rows, f, c)
    decreases |rows|
  {
    if rows != [] {
      var n := |rows| - 1;
      var row := rows[n];
      FilledAt(fds, rows[..n], f, c);
      FillUnderAt(Filled(fds, rows[..n]), Split(row[8]), Split(row[7]), row[0], f, c);
    }
  }

  /** A row naming a single control under a single framework contributes its id to exactly
      that control of that framework, once. */
  lemma SingleRowContributions(row: seq<string>, f: string, c: string)
    requires |row| > 8 && '\n' !in row[7] && '\n' !in row[8]
    ensures Contributions([row], f, c) == if f == row[8] && c == row[7] then [row[0]] else []
  {
    SplitWithoutNewline(row[7]);
    SplitWithoutNewline(row[8]);
    assert [row][..0] == [];
    var k := if f == row[8] && c == row[7] then 1 else 0;
    assert Copies(row, f, c) == Times(multiset{row[8]}[f], multiset{row[7]}[c]) == k;
  }

  /** An ET row naming one control under one framework appends its id to exactly that
      control of that framework, and leaves every other list as it was. */
  lemma SingleRowFill(fds: FrameworkDicts, row: seq<string>, f: string, c: string)
    requires |row| > 8 && '\n' !in row[7] && '\n' !in row[8]
    requires f in fds && c in fds[f]
    ensures f in Filled(fds, [row]) && c in Filled(fds, [row])[f]
    ensures Filled(fds, [row])[f][c] ==
              if f == row[8] && c == row[7] then fds[f][c] + [row[0]] else fds[f][c]
  {
    SingleRowContributions(row, f, c);
    FilledAt(fds, [row], f, c);
  }

  /** Row `i` has ET id `e` and lists framework `f` in column 8 and control `c` in column 7. */
  ghost predicate Carries(rows: seq<seq<string>>, i: int, f: string, c: string, e: string)
    requires EtRowsOk(rows)
  {
    0 <= i < |rows| && rows[i][0] == e && f in Split(rows[i][8]) && c in Split(rows[i][7])
  }

  lemma CarriesPrefix(rows: seq<seq<string>>, n: nat, i: int, f: string, c: string, e: string)
    requires EtRowsOk(rows) && n <= |rows| && 0 <= i < n
    ensures EtRowsOk(rows[..n])
    ensures Carries(rows[..n], i, f, c, e) <==> Carries(rows, i, f, c, e)
  {
    assert rows[..n][i] == rows[i];
  }

  /** The id of a row that lists `f` and `c` is among the contributions to `c` under `f`. */
  lemma {:induction false} CarriedIsContributed(rows: seq<seq<string>>, i: int, f: string, c: string, e: string)
    requires EtRowsOk(rows) && Carries(rows, i, f, c, e)
    ensures e in Contributions(rows, f, c)
    decreases |rows|
  {
    var n := |rows| - 1;
    var row := rows[n];
    if i < n {
      CarriesPrefix(rows, n, i, f, c, e);
      CarriedIsContributed(rows[..n], i, f, c, e);
    } else {
      ProductPositive(multiset(Split(row[8]))[f], multiset(Split(row[7]))[c]);
      assert Repeat(row[0], Copies(row, f, c))[0] == e;
    }
  }

  /** Every contribution to `c` under `f` is the id of a row that lists `f` and `c`. */
  lemma {:induction false} ContributedIsCarried(rows: seq<seq<string>>, f: string, c: string, e: string) returns (i: int)
    requires EtRowsOk(rows) && e in Contributions(rows, f, c)
    ensures Carries(rows, i, f, c, e)
    decreases |rows|
  {
    var n := |rows| - 1;
    var row := rows[n];
    if e in Contributions(rows[..n], f, c) {
      i := ContributedIsCarried(rows[..n], f, c, e);
      CarriesPrefix(rows, n, i, f, c, e);
    } else {
      ProductPositive(multiset(Split(row[8]))[f], multiset(Split(row[7]))[c]);
      i := n;
    }
  }

  /** An ET id is contributed to control `c` of framework `f` exactly when some row has it in
      column 0 and lists `f` in column 8 and `c` in column 7. */
  lemma ContributionsMember(rows: seq<seq<string>>, f: string, c: string, e: string)
    requires EtRowsOk(rows)
    ensures e in Contributions(rows, f, c) <==> exists i :: Carries(rows, i, f, c, e)
  {
    if e in Contributions(rows, f, c) {
      var i := ContributedIsCarried(rows, f, c, e);
    }
    if exists i :: Carries(rows, i, f, c, e) {
      var i :| Carries(rows, i, f, c, e);
      CarriedIsContributed(rows, i, f, c, e);
    }
  }

  // ---------------------------------------------------------------------------------------
  // The dictionary of frameworks, built and then filled in place

  /** `framework_dicts` of `examine_ETs.py`. */
  class FrameworkCatalog {
    var frameworks: FrameworkDicts

    /** `create_dict_of_frameworks` over the data rows of the control export. */
    constructor (controlRows: seq<seq<string>>)
      requires ControlRowsOk(controlRows)
      ensures frameworks == Universe(controlRows)
    {
      var frameworkDicts: FrameworkDicts := map[];
      for i := 0 to |controlRows|
        invariant frameworkDicts == Universe(controlRows[..i])
      {
        var row := controlRows[i];
        assert controlRows[..i + 1][..i] == controlRows[..i];
        if row[6] != "" {
          var frameworksList := Split(row[6]);
          ghost var before := frameworkDicts;
          for j := 0 to |frameworksList|
            invariant frameworkDicts == RegisterUnder(before, frameworksList[..j], row[1])
          {
            var f := frameworksList[j];
            assert frameworksList[..j + 1][..j] == frameworksList[..j];
            if f in frameworkDicts {
              var framework := frameworkDicts[f];
              framework := framework[row[1] := []];
              frameworkDicts := frameworkDicts[f := framework];
            } else {
              var framework: Framework := map[];
              framework := framework[row[1] := []];
              frameworkDicts := frameworkDicts[f := framework];
            }
          }
          assert frameworksList[..|frameworksList|] == frameworksList;
        }
      }
      assert controlRows[..|controlRows|] == controlRows;
      frameworks := frameworkDicts;
    }

    /** `fill_frameworks_with_ets` over the data rows of the evidence-task export. */
    method FillWithEts(etRows: seq<seq<string>>)
      requires EtRowsOk(etRows)
      modifies this
      ensures frameworks == Filled(old(frameworks), etRows)
      ensures frameworks.Keys == old(frameworks).Keys
      ensures forall f :: f in frameworks ==> frameworks[f].Keys == old(frameworks)[f].Keys
      ensures forall f, c :: f in old(frameworks) && c in old(frameworks)[f] ==>
                frameworks[f][c] == old(frameworks)[f][c] + Contributions(etRows, f, c)
    {
      for i := 0 to |etRows|
        invariant frameworks == Filled(old(frameworks), etRows[..i])
      {
        var row := etRows[i];
        assert etRows[..i + 1][..i] == etRows[..i];
        var frameworkList := Split(row[8]);
        ghost var before := frameworks;
        for j := 0 to |frameworkList|
          invariant frameworks == FillUnder(before, frameworkList[..j], Split(row[7]), row[0])
        {
          var f := frameworkList[j];
          assert frameworkList[..j + 1][..j] == frameworkList[..j];
          if f in frameworks {
            var framework := frameworks[f];
            var controlList := Split(row[7]);
            ghost var start := framework;
            for k := 0 to |controlList|
              invariant framework == AppendToControls(start, controlList[..k], row[0])
            {
              var control := controlList[k];
              assert controlList[..k + 1][..k] == controlList[..k];
              if control in framework {
                var etList := framework[control];
                etList := etList + [row[0]];
                framework := framework[control := etList];
              }
            }
            assert controlList[..|controlList|] == controlList;
            frameworks := frameworks[f := framework];
          }
        }
        assert frameworkList[..|frameworkList|] == frameworkList;
      }
      assert etRows[..|etRows|] == etRows;
      FilledKeys(old(frameworks), etRows);
      forall f, c | f in old(frameworks) && c in old(frameworks)[f]
        ensures frameworks[f][c] == old(frameworks)[f][c] + Contributions(etRows, f, c)
      {
        FilledAt(old(frameworks), etRows, f, c);
      }
    }
  }
}
