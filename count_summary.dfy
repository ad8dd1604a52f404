/**
 * The per-species summary of the harvested rows: how many rows were found
 * under each search name (the `value_counts` of the search name column).
 */
module CountSummary {
  import opened Dedup
  import GbifHarvest

  datatype NameCount = NameCount(searchName: string, count: nat)

  /** The search name column of the harvested rows. */
  function SearchNameColumn<R>(rows: seq<GbifHarvest.TaggedRow<R>>): seq<string> {
    seq(|rows|, i requires 0 <= i < |rows| => rows[i].searchName)
  }

  /** One entry per name of `names`, counting its occurrences in `column`. */
  function Tally(names: seq<string>, column: multiset<string>): seq<NameCount> {
    if names == [] then []
    else [NameCount(names[0], column[names[0]])] + Tally(names[1..], column)
  }

  function Total(summary: seq<NameCount>): nat {
    if summary == [] then 0 else summary[0].count + Total(summary[1..])
  }

  function NamesOf(summary: seq<NameCount>): seq<string> {
    seq(|summary|, i requires 0 <= i < |summary| => summary[i].searchName)
  }

  /** With no rows, every count in a tally is zero. */
  lemma {:induction false} TallyOfNothing(names: seq<string>)
    ensures Total(Tally(names, multiset{})) == 0
    decreases names
  {
    if names != [] {
      TallyOfNothing(names[1..]);
    }
  }

  /** One more row adds one to the total when its name is tallied, once. */
  lemma {:induction false} TallyAddRow(names: seq<string>, column: multiset<string>, x: string)
    requires NoDuplicates(names)
    ensures Total(Tally(names, column + multiset{x})) == Total(Tally(names, column)) + if x in names then 1 else 0
    decreases names
  {
    if names != [] {
      assert NoDuplicates(names[1..]) by {
        forall i, j | 0 <= i < j < |names[1..]| ensures names[1..][i] != names[1..][j] {
          assert names[1..][i] == names[i + 1] && names[1..][j] == names[j + 1];
        }
      }
      TallyAddRow(names[1..], column, x);
      assert x in names <==> names[0] == x || x in names[1..];
    }
  }

  /**
   * When the tallied names are distinct and include every name of the
   * column, the counts add up to the number of rows.
   */
  lemma {:induction false} TallyTotal(names: seq<string>, column: seq<string>)
    requires NoDuplicates(names)
    requires forall i :: 0 <= i < |column| ==> column[i] in names
    ensures Total(Tally(names, multiset(column))) == |column|
    decreases column
  {
    if column == [] {
      TallyOfNothing(names);
    } else {
      var init := column[..|column| - 1];
      assert column == init + [column[|column| - 1]];
      assert multiset(column) == multiset(init) + multiset{column[|column| - 1]};
      TallyTotal(names, init);
      TallyAddRow(names, multiset(init), column[|column| - 1]);
    }
  }

  /** The entries of a tally follow its names and carry their counts. */
  lemma {:induction false} TallyEntries(names: seq<string>, column: multiset<string>)
    ensures |Tally(names, column)| == |names|
    ensures forall i :: 0 <= i < |names| ==> Tally(names, column)[i] == NameCount(names[i], column[names[i]])
    decreases names
  {
    if names != [] {
      TallyEntries(names[1..], column);
    }
  }

  /**
   * The count summary: exactly one entry per distinct search name, each
   * with the positive number of rows under that name, and counts that add
   * up to the number of rows.
   */
  function ValueCounts(column: seq<string>): (summary: seq<NameCount>)
    ensures NoDuplicates(NamesOf(summary))
    ensures forall i :: 0 <= i < |column| ==> column[i] in NamesOf(summary)
    ensures forall i :: 0 <= i < |summary| ==>
      summary[i].searchName in column && summary[i].count == multiset(column)[summary[i].searchName] > 0
    ensures Total(summary) == |column|
  {
    var names := Unique(column);
    TallyEntries(names, multiset(column));
    TallyTotal(names, column);
    var summary := Tally(names, multiset(column));
    assert NamesOf(summary) == names;
    summary
  }

  /** The summary of the harvested rows by search name. */
  function SearchNameCounts<R>(rows: seq<GbifHarvest.TaggedRow<R>>): (summary: seq<NameCount>)
    ensures Total(summary) == |rows|
    ensures forall i :: 0 <= i < |rows| ==> rows[i].searchName in NamesOf(summary)
    ensures NoDuplicates(NamesOf(summary))
    ensures forall i :: 0 <= i < |summary| ==>
      && summary[i].searchName in SearchNameColumn(rows)
      && summary[i].count == multiset(SearchNameColumn(rows))[summary[i].searchName] > 0
  {
    var column := SearchNameColumn(rows);
    assert forall i :: 0 <= i < |rows| ==> column[i] == rows[i].searchName;
    ValueCounts(column)
  }
}
