/** The table from a language name to the JetBrains IDE that opens it, with
    lookup and the sorted list of distinct IDEs. The table exists twice in the
    program, once written with the shared constants and once with literals;
    both are modelled. */
module Ides {
  import opened Wrappers
  import opened Strings
  import opened SortedMap
  import opened Consts

  /** An ordered map from language to IDE, in declaration order. */
  type Table = seq<(string, string)>

  /** The table written with the shared constants for its IDEs. */
  const AfTable: Table := [
    ("c", CLION), ("c++", CLION), ("go", GOLAND),
    ("javascript", WEBSTORM), ("ruby", RUBYMINE), ("rust", RUSTROVER)
  ]

  /** The same table written with literals. */
  const LegacyTable: Table := [
    ("c", "clion"), ("c++", "clion"), ("go", "goland"),
    ("javascript", "webstorm"), ("ruby", "rubymine"), ("rust", "rustrover")
  ]

  /** `get`: the IDE the table assigns to `language`. */
  function Get(table: Table, language: string): (r: Option<string>)
    ensures r.Some? ==> (language, r.value) in table
    ensures r.None? <==> forall e :: e in table ==> e.0 != language
  {
    if table == [] then None
    else if table[0].0 == language then Some(table[0].1)
    else Get(table[1..], language)
  }

  function Id(s: string): string { s }

  /** `list`: the distinct IDEs of the table, collected into an ordered set
      and read back in ascending order. */
  function List(table: Table): seq<string> {
    KeysInOrder(InsertAll(Values(table), Id))
  }

  predicate Increasing(s: seq<string>) {
    forall i, j :: 0 <= i < j < |s| ==> Less(s[i], s[j])
  }

  /** `list` holds each IDE the table names exactly once, in strictly
      ascending order, and nothing else. */
  lemma ListProperties(table: Table)
    ensures Increasing(List(table))
    ensures forall ide :: ide in List(table) <==> exists e :: e in table && e.1 == ide
    ensures forall ide :: ide in List(table) <==> ide in Values(table)
  {
    var xs := Values(table);
    var m := InsertAll(xs, Id);
    InsertAllKeys(xs, Id);
    forall ide ensures ide in List(table) <==> exists e :: e in table && e.1 == ide {
      if ide in List(table) {
        var i :| 0 <= i < |m| && m[i].0 == ide;
        assert ide in Keys(m);
        var k :| 0 <= k < |xs| && Id(xs[k]) == ide;
        assert table[k] in table && table[k].1 == ide;
      }
      if exists e :: e in table && e.1 == ide {
        var e :| e in table && e.1 == ide;
        var k :| 0 <= k < |table| && table[k] == e;
        assert Id(xs[k]) == ide;
        assert ide in Keys(m);
        var i :| 0 <= i < |m| && m[i].0 == ide;
        assert List(table)[i] == ide;
      }
    }
  }

  /** The head of a strictly ascending sequence is below its other elements. */
  lemma HeadIsLeast(s: seq<string>, x: string)
    requires Increasing(s) && x in s
    ensures x == s[0] || Less(s[0], x)
  {
  }

  /** Two strictly ascending sequences with the same elements are equal. */
  lemma {:induction false} IncreasingUnique(a: seq<string>, b: seq<string>)
    requires Increasing(a) && Increasing(b)
    requires forall x :: x in a <==> x in b
    ensures a == b
  {
    assert a != [] ==> a[0] in b;
    assert b != [] ==> b[0] in a;
    if a != [] && b != [] {
      HeadIsLeast(b, a[0]);
      HeadIsLeast(a, b[0]);
      if a[0] != b[0] {
        LessAsymmetric(a[0], b[0]);
      }
      forall x ensures x in a[1..] <==> x in b[1..] {
        LessIrreflexive(x);
        if x in a[1..] {
          var k :| 1 <= k < |a| && a[k] == x;
          assert x in b;
          var k' :| 0 <= k' < |b| && b[k'] == x;
          assert b[1..][k' - 1] == x;
        }
        if x in b[1..] {
          var k :| 1 <= k < |b| && b[k] == x;
          assert x in a;
          var k' :| 0 <= k' < |a| && a[k'] == x;
          assert a[1..][k' - 1] == x;
        }
      }
      IncreasingUnique(a[1..], b[1..]);
      assert a == [a[0]] + a[1..] && b == [b[0]] + b[1..];
    }
  }

  /** The IDE names in ascending order. */
  lemma IdeNamesIncreasing()
    ensures Increasing([CLION, GOLAND, RUBYMINE, RUSTROVER, WEBSTORM])
  {
    var want := [CLION, GOLAND, RUBYMINE, RUSTROVER, WEBSTORM];
    assert Less(want[0], want[1]) && Less(want[1], want[2]);
    assert Less(want[2], want[3]) && Less(want[3], want[4]);
    forall i, j | 0 <= i < j < |want| ensures Less(want[i], want[j]) {
      LessChain(want, i, j);
    }
  }

  /** `list` of a table is the one strictly ascending sequence holding its
      IDEs. */
  lemma ListIs(table: Table, want: seq<string>)
    requires Increasing(want)
    requires forall x :: x in want <==> x in Values(table)
    ensures List(table) == want
  {
    ListProperties(table);
    IncreasingUnique(List(table), want);
  }

  /** The IDEs listed, as the unit test states them. */
  lemma ListIsAllIdes()
    ensures List(AfTable) == [CLION, GOLAND, RUBYMINE, RUSTROVER, WEBSTORM]
    ensures List(LegacyTable) == ["clion", "goland", "rubymine", "rustrover", "webstorm"]
  {
    var want := [CLION, GOLAND, RUBYMINE, RUSTROVER, WEBSTORM];
    IdeNamesIncreasing();
    assert Values(AfTable) == [CLION, CLION, GOLAND, WEBSTORM, RUBYMINE, RUSTROVER];
    ListIs(AfTable, want);
  }

  lemma {:induction false} LessChain(s: seq<string>, i: nat, j: nat)
    requires i < j < |s|
    requires forall k :: 0 <= k < |s| - 1 ==> Less(s[k], s[k + 1])
    ensures Less(s[i], s[j])
    decreases j - i
  {
    if j > i + 1 {
      LessChain(s, i + 1, j);
      LessTransitive(s[i], s[i + 1], s[j]);
    }
  }

  /** `get` answers for the six languages of the table and for nothing else. */
  lemma GetCases(language: string)
    ensures Get(AfTable, language) == Get(LegacyTable, language)
    ensures Get(AfTable, language) ==
      if language == C || language == CPP then Some(CLION)
      else if language == GO then Some(GOLAND)
      else if language == JS then Some(WEBSTORM)
      else if language == RUBY then Some(RUBYMINE)
      else if language == RUST then Some(RUSTROVER)
      else None
  {
  }

  /** Every IDE `get` can return is one `list` offers. */
  lemma GetIsListed(table: Table, language: string)
    requires Get(table, language).Some?
    ensures Get(table, language).value in List(table)
  {
    ListProperties(table);
  }
}
