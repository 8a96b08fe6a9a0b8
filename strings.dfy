/** Python 2 string behaviour that the comparison scripts rely on:
    `str.split('\n')`, the ordering of byte strings, and `sorted` over a set of strings. */
module Strings {

  /** Python's `s.split('\n')`: the pieces between newlines, in order.
      Python gives at least one piece, so `"".split('\n') == [""]`. */
  function Split(s: string): (r: seq<string>)
    ensures |r| >= 1
    decreases |s|
  {
    if s == [] then [""]
    else
      var rest := Split(s[1..]);
      if s[0] == '\n' then [""] + rest
      else [[s[0]] + rest[0]] + rest[1..]
  }

  /** Newline-joined pieces: the inverse of `Split`. The scripts never join; this serves the
      round-trip lemmas and the description of cells written as joined names. */
  function Join(parts: seq<string>): (s: string)
    requires |parts| >= 1
    decreases |parts|
  {
    if |parts| == 1 then parts[0] else parts[0] + "\n" + Join(parts[1..])
  }

  /** A piece of `Split(s)` never contains the separator. */
  lemma {:induction false} SplitPiecesHaveNoNewline(s: string)
    ensures forall i :: 0 <= i < |Split(s)| ==> '\n' !in Split(s)[i]
    decreases |s|
  {
    if s != [] {
      SplitPiecesHaveNoNewline(s[1..]);
      var rest := Split(s[1..]);
      if s[0] != '\n' {
        assert forall i :: 1 <= i < |Split(s)| ==> Split(s)[i] == rest[i];
        assert Split(s)[0] == [s[0]] + rest[0];
      }
    }
  }

  /** Joining the pieces again gives back the original text. */
  lemma {:induction false} JoinSplit(s: string)
    ensures Join(Split(s)) == s
    decreases |s|
  {
    if s != [] {
      JoinSplit(s[1..]);
      var rest := Split(s[1..]);
      if s[0] == '\n' {
        assert Split(s)[1..] == rest;
      } else if |rest| == 1 {
        assert Split(s) == [[s[0]] + rest[0]];
      } else {
        var r := Split(s);
        assert r[1..] == rest[1..];
        assert Join(rest) == rest[0] + "\n" + Join(rest[1..]);
        assert Join(r) == ([s[0]] + rest[0]) + "\n" + Join(rest[1..]);
      }
    }
  }

  /** Splitting text whose first part has no newline keeps that part glued to the first piece. */
  lemma {:induction false} SplitPrefix(a: string, t: string)
    requires '\n' !in a
    ensures Split(a + t) == [a + Split(t)[0]] + Split(t)[1..]
    decreases |a|
  {
    if a != [] {
      assert (a + t)[1..] == a[1..] + t;
      assert (a + t)[0] == a[0];
      SplitPrefix(a[1..], t);
      assert [a[0]] + (a[1..] + Split(t)[0]) == a + Split(t)[0];
    } else {
      var r := Split(t);
      assert a + t == t;
      assert a + r[0] == r[0];
      assert r == [r[0]] + r[1..];
    }
  }

  /** Splitting joined pieces (none containing a newline) gives back the pieces. */
  lemma {:induction false} SplitJoin(parts: seq<string>)
    requires |parts| >= 1
    requires forall i :: 0 <= i < |parts| ==> '\n' !in parts[i]
    ensures Split(Join(parts)) == parts
    decreases |parts|
  {
    if |parts| == 1 {
      SplitPrefix(parts[0], "");
      assert parts[0] + "" == parts[0];
      assert Split("") == [""];
      assert parts == [parts[0]];
    } else {
      SplitJoin(parts[1..]);
      var t := "\n" + Join(parts[1..]);
      assert t[1..] == Join(parts[1..]);
      assert Split(t) == [""] + parts[1..];
      SplitPrefix(parts[0], t);
      assert Join(parts) == parts[0] + t;
      assert parts[0] + "" == parts[0];
      assert parts == [parts[0]] + parts[1..];
    }
  }

  /** Text without a newline splits into itself alone. */
  lemma SplitWithoutNewline(s: string)
    requires '\n' !in s
    ensures Split(s) == [s]
  {
    SplitJoin([s]);
  }

  /** Python 2 ordering of byte strings: lexicographic by character code,
      a proper prefix before any longer string. */
  predicate Less(a: string, b: string)
    decreases |a|
  {
    if a == [] then b != []
    else if b == [] then false
    else if a[0] != b[0] then a[0] < b[0]
    else Less(a[1..], b[1..])
  }

  lemma {:induction false} LessIrreflexive(a: string)
    ensures !Less(a, a)
    decreases |a|
  {
    if a != [] {
      LessIrreflexive(a[1..]);
    }
  }

  lemma {:induction false} LessTransitive(a: string, b: string, c: string)
    requires Less(a, b) && Less(b, c)
    ensures Less(a, c)
    decreases |a|
  {
    if a != [] && b != [] && c != [] && a[0] == b[0] && b[0] == c[0] {
      LessTransitive(a[1..], b[1..], c[1..]);
    }
  }

  lemma {:induction false} LessTotal(a: string, b: string)
    ensures a == b || Less(a, b) || Less(b, a)
    decreases |a|
  {
    if a != [] && b != [] && a[0] == b[0] {
      LessTotal(a[1..], b[1..]);
      if a[1..] == b[1..] {
        assert a == [a[0]] + a[1..] && b == [b[0]] + b[1..];
      }
    }
  }

  lemma LessAsymmetric(a: string, b: string)
    ensures !(Less(a, b) && Less(b, a))
  {
  }

  predicate StrictlySorted(s: seq<string>)
  {
    forall i, j :: 0 <= i < j < |s| ==> Less(s[i], s[j])
  }

  /** Strictly sorted sequences hold no element twice. */
  lemma StrictlySortedDistinct(s: seq<string>, i: int, j: int)
    requires StrictlySorted(s)
    requires 0 <= i < |s| && 0 <= j < |s| && i != j
    ensures s[i] != s[j]
  {
    if i < j { LessIrreflexive(s[i]); } else { LessIrreflexive(s[j]); }
  }

  predicate IsMinimum(m: string, s: set<string>)
  {
    m in s && forall x :: x in s && x != m ==> Less(m, x)
  }

  lemma {:induction false} MinimumExists(s: set<string>)
    requires s != {}
    ensures exists m :: IsMinimum(m, s)
    decreases |s|
  {
    var x :| x in s;
    if s != {x} {
      MinimumExists(s - {x});
      var m :| IsMinimum(m, s - {x});
      LessTotal(x, m);
      if Less(x, m) {
        forall y | y in s && y != x
          ensures Less(x, y)
        {
          if y != m { LessTransitive(x, m, y); }
        }
        assert IsMinimum(x, s);
      } else {
        assert IsMinimum(m, s);
      }
    } else {
      assert IsMinimum(x, s);
    }
  }

  lemma MinimumUnique(s: set<string>)
    ensures forall m, m' :: IsMinimum(m, s) && IsMinimum(m', s) ==> m == m'
  {
    forall m, m' | IsMinimum(m, s) && IsMinimum(m', s)
      ensures m == m'
    {
      LessAsymmetric(m, m');
    }
  }

  /** Python's `sorted(s)` for a set of strings: every element once, in increasing order. */
  function Sorted(s: set<string>): (r: seq<string>)
    ensures StrictlySorted(r)
    ensures forall x :: x in r <==> x in s
    ensures |r| == |s|
    decreases |s|
  {
    if s == {} then []
    else
      MinimumExists(s);
      MinimumUnique(s);
      var m :| IsMinimum(m, s);
      var rest := Sorted(s - {m});
      assert forall j :: 0 <= j < |rest| ==> rest[j] in rest;
      assert forall x :: x in rest ==> x in s && x != m;
      [m] + rest
  }
}
