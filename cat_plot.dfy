/** The data behind the categorical plot: the long-format reshape of the
    six indicator columns and the table of group counts drawn as bars. */
module CatPlot {
  import opened Records
  import opened SortOrder
  import opened Features

  /** One row of the long-format table: a subject's cardio label, the name
      of an indicator column and that subject's value for it. The same
      triple is the key of a group in the count table. */
  datatype Observation = Observation(cardio: int, variable: string, value: int)

  /** The triples of one indicator column, rows in their original order. */
  function MeltColumn(t: seq<Record>, name: string): (m: seq<Observation>)
    requires name in IndicatorColumns
    ensures |m| == |t|
  {
    seq(|t|, i requires 0 <= i < |t| => Observation(t[i].cardio, name, Column(t[i], name)))
  }

  /** The triples of the columns `names`, one column after the other. */
  function MeltColumns(t: seq<Record>, names: seq<string>): seq<Observation>
    requires forall n :: n in names ==> n in IndicatorColumns
  {
    if names == [] then [] else MeltColumn(t, names[0]) + MeltColumns(t, names[1..])
  }

  /** Lines 24-26: the reshape with `cardio` as identifier and the six
      indicator columns as value columns. */
  function Melt(t: seq<Record>): seq<Observation>
  {
    MeltColumns(t, IndicatorColumns)
  }

  lemma {:induction false} MeltColumnsLength(t: seq<Record>, names: seq<string>)
    requires forall n :: n in names ==> n in IndicatorColumns
    ensures |MeltColumns(t, names)| == |names| * |t|
  {
    if names != [] {
      MeltColumnsLength(t, names[1..]);
    }
  }

  lemma {:induction false} MeltColumnsAt(t: seq<Record>, names: seq<string>, v: nat, i: nat)
    requires forall n :: n in names ==> n in IndicatorColumns
    requires v < |names| && i < |t|
    ensures v * |t| + i < |MeltColumns(t, names)|
    ensures MeltColumns(t, names)[v * |t| + i]
            == Observation(t[i].cardio, names[v], Column(t[i], names[v]))
  {
    MeltColumnsLength(t, names);
    MeltColumnsLength(t, names[1..]);
    if v > 0 {
      MeltColumnsAt(t, names[1..], v - 1, i);
      assert v * |t| + i == |t| + ((v - 1) * |t| + i);
    }
  }

  /** The reshape yields six triples per row. */
  lemma MeltLength(t: seq<Record>)
    ensures |Melt(t)| == 6 * |t|
  {
    MeltColumnsLength(t, IndicatorColumns);
  }

  /** The triple at position v * n + i comes from row i and indicator
      column v, so the triples run column by column, rows in original order
      inside each column. */
  lemma MeltShape(t: seq<Record>, v: nat, i: nat)
    requires v < 6 && i < |t|
    ensures v * |t| + i < |Melt(t)|
    ensures Melt(t)[v * |t| + i]
            == Observation(t[i].cardio, IndicatorColumns[v], Column(t[i], IndicatorColumns[v]))
  {
    MeltColumnsLength(t, IndicatorColumns);
    MeltColumnsAt(t, IndicatorColumns, v, i);
  }

  /** Every triple of the reshape comes from some row and names the column
      whose value it carries. */
  lemma {:induction false} MeltColumnsFrom(t: seq<Record>, names: seq<string>, k: nat)
    requires forall n :: n in names ==> n in IndicatorColumns
    requires k < |MeltColumns(t, names)|
    ensures MeltColumns(t, names)[k].variable in names
    ensures exists i :: 0 <= i < |t| && MeltColumns(t, names)[k]
              == Observation(t[i].cardio, MeltColumns(t, names)[k].variable,
                             Column(t[i], MeltColumns(t, names)[k].variable))
  {
    var o := MeltColumns(t, names)[k];
    if k < |t| {
      assert o == Observation(t[k].cardio, names[0], Column(t[k], names[0]));
    } else {
      MeltColumnsFrom(t, names[1..], k - |t|);
      assert o == MeltColumns(t, names[1..])[k - |t|];
    }
  }

  /** Number of triples whose cardio label is `c`. */
  function CardioCount(obs: seq<Observation>, c: int): nat
  {
    if obs == [] then 0
    else (if obs[0].cardio == c then 1 else 0) + CardioCount(obs[1..], c)
  }

  lemma {:induction false} CardioCountAppend(a: seq<Observation>, b: seq<Observation>, c: int)
    ensures CardioCount(a + b, c) == CardioCount(a, c) + CardioCount(b, c)
  {
    if a != [] {
      assert (a + b)[1..] == a[1..] + b;
      CardioCountAppend(a[1..], b, c);
    } else {
      assert a + b == b;
    }
  }

  lemma {:induction false} CardioCountMeltColumn(t: seq<Record>, name: string, c: int)
    requires name in IndicatorColumns
    ensures CardioCount(MeltColumn(t, name), c) == RowsWithCardio(t, c)
  {
    if t != [] {
      assert MeltColumn(t, name)[1..] == MeltColumn(t[1..], name);
      CardioCountMeltColumn(t[1..], name, c);
    }
  }

  lemma {:induction false} CardioCountMeltColumns(t: seq<Record>, names: seq<string>, c: int)
    requires forall n :: n in names ==> n in IndicatorColumns
    ensures CardioCount(MeltColumns(t, names), c) == |names| * RowsWithCardio(t, c)
  {
    if names != [] {
      var rows := RowsWithCardio(t, c);
      CardioCountAppend(MeltColumn(t, names[0]), MeltColumns(t, names[1..]), c);
      CardioCountMeltColumn(t, names[0], c);
      CardioCountMeltColumns(t, names[1..], c);
      assert |names| * rows == rows + |names[1..]| * rows;
    }
  }

  /** Every row contributes one triple per indicator to its cardio label. */
  lemma MeltCardioCount(t: seq<Record>, c: int)
    ensures CardioCount(Melt(t), c) == 6 * RowsWithCardio(t, c)
  {
    CardioCountMeltColumns(t, IndicatorColumns, c);
  }

  /** One row of the count table: a group key and its `total`. */
  datatype Group = Group(key: Observation, total: nat)

  /** The sort order of group keys: by cardio, then variable name, then value. */
  predicate KeyLess(a: Observation, b: Observation)
  {
    a.cardio < b.cardio ||
    (a.cardio == b.cardio &&
     (StrLess(a.variable, b.variable) ||
      (a.variable == b.variable && a.value < b.value)))
  }

  lemma KeyLessIrreflexive(a: Observation)
    ensures !KeyLess(a, a)
  {
    StrLessIrreflexive(a.variable);
  }

  lemma KeyLessTransitive(a: Observation, b: Observation, c: Observation)
    requires KeyLess(a, b) && KeyLess(b, c)
    ensures KeyLess(a, c)
  {
    if StrLess(a.variable, b.variable) && StrLess(b.variable, c.variable) {
      StrLessTransitive(a.variable, b.variable, c.variable);
    }
  }

  lemma KeyLessTotal(a: Observation, b: Observation)
    ensures a == b || KeyLess(a, b) || KeyLess(b, a)
  {
    if a.variable != b.variable {
      StrLessTotal(a.variable, b.variable);
    }
  }

  /** Keys strictly ascending, hence pairwise distinct. */
  predicate Ascending(g: seq<Group>)
  {
    forall i, j :: 0 <= i < j < |g| ==> KeyLess(g[i].key, g[j].key)
  }

  /** Every group counts at least one triple. */
  predicate Positive(g: seq<Group>)
  {
    forall i :: 0 <= i < |g| ==> g[i].total >= 1
  }

  function Keys(g: seq<Group>): set<Observation>
  {
    set i | 0 <= i < |g| :: g[i].key
  }

  /** The total the table records for key `q` (0 if the key is absent). */
  function Total(g: seq<Group>, q: Observation): nat
  {
    if g == [] then 0
    else (if g[0].key == q then g[0].total else 0) + Total(g[1..], q)
  }

  /** Sum of all totals. */
  function SumTotals(g: seq<Group>): nat
  {
    if g == [] then 0 else g[0].total + SumTotals(g[1..])
  }

  /** Sum of the totals of the groups with cardio label `c`. */
  function CardioTotals(g: seq<Group>, c: int): nat
  {
    if g == [] then 0
    else (if g[0].key.cardio == c then g[0].total else 0) + CardioTotals(g[1..], c)
  }

  /** Counts one more triple `k` into a table kept in key order: the group
      of `k` is incremented, or a new group of one is put in its place. */
  function Insert(g: seq<Group>, k: Observation): seq<Group>
  {
    if g == [] then [Group(k, 1)]
    else if g[0].key == k then [Group(k, g[0].total + 1)] + g[1..]
    else if KeyLess(k, g[0].key) then [Group(k, 1)] + g
    else [g[0]] + Insert(g[1..], k)
  }

  /** Line 30: group the triples by (cardio, variable, value) and count each
      group, keys in ascending order. */
  function GroupCount(obs: seq<Observation>): seq<Group>
  {
    if obs == [] then [] else Insert(GroupCount(obs[1..]), obs[0])
  }

  /** Lines 24-30: the table the categorical plot draws. */
  function CatSummary(t: seq<Record>): seq<Group>
  {
    GroupCount(Melt(t))
  }

  lemma {:induction false} InsertKeys(g: seq<Group>, k: Observation)
    ensures Keys(Insert(g, k)) == Keys(g) + {k}
  {
    if g != [] && g[0].key != k && !KeyLess(k, g[0].key) {
      InsertKeys(g[1..], k);
      var r := Insert(g[1..], k);
      assert Keys([g[0]] + r) == {g[0].key} + Keys(r) by {
        forall x | x in Keys([g[0]] + r) ensures x in {g[0].key} + Keys(r) {
          var i :| 0 <= i < |[g[0]] + r| && ([g[0]] + r)[i].key == x;
          if i > 0 { assert r[i - 1].key == x; }
        }
        assert ([g[0]] + r)[0].key == g[0].key;
        forall x | x in Keys(r) ensures x in Keys([g[0]] + r) {
          var i :| 0 <= i < |r| && r[i].key == x;
          assert ([g[0]] + r)[i + 1].key == x;
        }
      }
      assert Keys(g) == {g[0].key} + Keys(g[1..]) by {
        forall x | x in Keys(g) ensures x in {g[0].key} + Keys(g[1..]) {
          var i :| 0 <= i < |g| && g[i].key == x;
          if i > 0 { assert g[1..][i - 1].key == x; }
        }
        forall x | x in Keys(g[1..]) ensures x in Keys(g) {
          var i :| 0 <= i < |g[1..]| && g[1..][i].key == x;
          assert g[i + 1].key == x;
        }
      }
    } else if g != [] && g[0].key == k {
      assert Keys(Insert(g, k)) == Keys(g) by {
        forall x | x in Keys(g) ensures x in Keys(Insert(g, k)) {
          var i :| 0 <= i < |g| && g[i].key == x;
          assert Insert(g, k)[i].key == x;
        }
      }
    } else if g != [] {
      assert Keys(Insert(g, k)) == Keys(g) + {k} by {
        forall x | x in Keys(g) ensures x in Keys(Insert(g, k)) {
          var i :| 0 <= i < |g| && g[i].key == x;
          assert Insert(g, k)[i + 1].key == x;
        }
        assert Insert(g, k)[0].key == k;
      }
    } else {
      assert Insert(g, k)[0].key == k;
    }
  }

  lemma {:induction false} InsertAscending(g: seq<Group>, k: Observation)
    requires Ascending(g)
    ensures Ascending(Insert(g, k))
  {
    if g == [] || g[0].key == k {
    } else if KeyLess(k, g[0].key) {
      forall j | 0 <= j < |g| ensures KeyLess(k, g[j].key) {
        if j > 0 { KeyLessTransitive(k, g[0].key, g[j].key); }
      }
    } else {
      KeyLessTotal(k, g[0].key);
      var r := Insert(g[1..], k);
      InsertAscending(g[1..], k);
      InsertKeys(g[1..], k);
      forall j | 0 <= j < |r| ensures KeyLess(g[0].key, r[j].key) {
        assert r[j].key in Keys(g[1..]) + {k};
        if r[j].key != k {
          var m :| 0 <= m < |g[1..]| && g[1..][m].key == r[j].key;
          assert g[m + 1].key == r[j].key;
        }
      }
    }
  }

  lemma {:induction false} InsertPositive(g: seq<Group>, k: Observation)
    requires Positive(g)
    ensures Positive(Insert(g, k))
  {
    if g != [] && g[0].key != k && !KeyLess(k, g[0].key) {
      InsertPositive(g[1..], k);
    }
  }

  lemma {:induction false} InsertTotal(g: seq<Group>, k: Observation, q: Observation)
    ensures Total(Insert(g, k), q) == Total(g, q) + (if q == k then 1 else 0)
  {
    if g == [] {
    } else if g[0].key == k {
      assert Insert(g, k)[1..] == g[1..];
    } else if KeyLess(k, g[0].key) {
      assert Insert(g, k)[1..] == g;
    } else {
      assert Insert(g, k)[1..] == Insert(g[1..], k);
      InsertTotal(g[1..], k, q);
    }
  }

  lemma {:induction false} InsertSum(g: seq<Group>, k: Observation)
    ensures SumTotals(Insert(g, k)) == SumTotals(g) + 1
  {
    if g == [] {
    } else if g[0].key == k {
      assert Insert(g, k)[1..] == g[1..];
    } else if KeyLess(k, g[0].key) {
      assert Insert(g, k)[1..] == g;
    } else {
      assert Insert(g, k)[1..] == Insert(g[1..], k);
      InsertSum(g[1..], k);
    }
  }

  lemma {:induction false} InsertCardio(g: seq<Group>, k: Observation, c: int)
    ensures CardioTotals(Insert(g, k), c) == CardioTotals(g, c) + (if k.cardio == c then 1 else 0)
  {
    if g == [] {
    } else if g[0].key == k {
      assert Insert(g, k)[1..] == g[1..];
    } else if KeyLess(k, g[0].key) {
      assert Insert(g, k)[1..] == g;
    } else {
      assert Insert(g, k)[1..] == Insert(g[1..], k);
      InsertCardio(g[1..], k, c);
    }
  }

  /** The count table has distinct keys in ascending order, only groups that
      occur, a key set equal to the set of triples, each key's total equal to
      the number of its occurrences, totals summing to the number of
      triples, and per cardio label totals summing to that label's triples. */
  lemma {:induction false} GroupCountCorrect(obs: seq<Observation>)
    ensures Ascending(GroupCount(obs)) && Positive(GroupCount(obs))
    ensures Keys(GroupCount(obs)) == set o | o in obs
    ensures forall q :: Total(GroupCount(obs), q) == multiset(obs)[q]
    ensures SumTotals(GroupCount(obs)) == |obs|
    ensures forall c :: CardioTotals(GroupCount(obs), c) == CardioCount(obs, c)
  {
    if obs != [] {
      var rest := GroupCount(obs[1..]);
      GroupCountCorrect(obs[1..]);
      InsertAscending(rest, obs[0]);
      InsertPositive(rest, obs[0]);
      InsertKeys(rest, obs[0]);
      InsertSum(rest, obs[0]);
      assert obs == [obs[0]] + obs[1..];
      assert multiset(obs) == multiset{obs[0]} + multiset(obs[1..]);
      forall q ensures Total(GroupCount(obs), q) == multiset(obs)[q] {
        InsertTotal(rest, obs[0], q);
      }
      forall c ensures CardioTotals(GroupCount(obs), c) == CardioCount(obs, c) {
        InsertCardio(rest, obs[0], c);
      }
      assert (set o | o in obs) == {obs[0]} + set o | o in obs[1..];
    }
  }

  lemma {:induction false} TotalAbsent(g: seq<Group>, q: Observation)
    requires forall j :: 0 <= j < |g| ==> g[j].key != q
    ensures Total(g, q) == 0
  {
    if g != [] {
      TotalAbsent(g[1..], q);
    }
  }

  /** The head group contributes its own total to its key's total. */
  lemma HeadTotalCounts(g: seq<Group>)
    ensures g != [] ==> Total(g, g[0].key) >= g[0].total
  {
  }

  /** In an ascending table the key at the head is recorded exactly once. */
  lemma TotalOfHead(g: seq<Group>)
    requires Ascending(g) && g != []
    ensures Total(g, g[0].key) == g[0].total
  {
    forall j | 0 <= j < |g[1..]| ensures g[1..][j].key != g[0].key {
      assert KeyLess(g[0].key, g[j + 1].key);
      KeyLessIrreflexive(g[0].key);
    }
    TotalAbsent(g[1..], g[0].key);
  }

  /** In an ascending table no key below the head key has a positive total. */
  lemma LeastKey(g: seq<Group>, q: Observation)
    requires Ascending(g) && g != []
    ensures Total(g, q) > 0 ==> !KeyLess(q, g[0].key)
  {
    if KeyLess(q, g[0].key) {
      forall j | 0 <= j < |g| ensures g[j].key != q {
        if j > 0 { KeyLessTransitive(q, g[0].key, g[j].key); }
        KeyLessIrreflexive(q);
      }
      TotalAbsent(g, q);
    }
  }

  /** Two ascending tables of positive groups that record the same total for
      every key are the same table. */
  lemma {:induction false} TableDeterminedByTotals(g1: seq<Group>, g2: seq<Group>)
    requires Ascending(g1) && Positive(g1) && Ascending(g2) && Positive(g2)
    requires forall q :: Total(g1, q) == Total(g2, q)
    ensures g1 == g2
  {
    if g1 != [] && g2 != [] {
      var k1, k2 := g1[0].key, g2[0].key;
      TotalOfHead(g1);
      TotalOfHead(g2);
      LeastKey(g1, k2);
      LeastKey(g2, k1);
      assert Total(g1, k2) == Total(g2, k2);
      assert Total(g1, k1) == Total(g2, k1);
      KeyLessTotal(k1, k2);
      assert g1[0] == g2[0];
      forall q ensures Total(g1[1..], q) == Total(g2[1..], q) {
        assert Total(g1, q) == Total(g2, q);
      }
      TableDeterminedByTotals(g1[1..], g2[1..]);
      assert g1 == [g1[0]] + g1[1..] && g2 == [g2[0]] + g2[1..];
    } else if g1 != [] {
      HeadTotalCounts(g1);
      assert false;
    } else if g2 != [] {
      HeadTotalCounts(g2);
      assert false;
    }
  }

  /** Converse of GroupCountCorrect: any table with ascending keys, positive
      totals and each key's total equal to its number of occurrences is the
      count table of `obs`. */
  lemma GroupCountUnique(obs: seq<Observation>, g: seq<Group>)
    requires Ascending(g) && Positive(g)
    requires forall q :: Total(g, q) == multiset(obs)[q]
    ensures g == GroupCount(obs)
  {
    GroupCountCorrect(obs);
    TableDeterminedByTotals(g, GroupCount(obs));
  }

  /** The plotted table: keys distinct and ascending, every total at least 1,
      totals summing to 6 * n and, for each cardio label c, the totals with
      label c summing to 6 times the number of rows with label c. */
  lemma CatSummaryTotals(t: seq<Record>, c: int)
    ensures Ascending(CatSummary(t)) && Positive(CatSummary(t))
    ensures SumTotals(CatSummary(t)) == 6 * |t|
    ensures CardioTotals(CatSummary(t), c) == 6 * RowsWithCardio(t, c)
  {
    GroupCountCorrect(Melt(t));
    MeltColumnsLength(t, IndicatorColumns);
    MeltCardioCount(t, c);
  }

  /** After feature derivation the cholesterol, glucose and overweight
      groups of the plotted table only ever carry the values 0 and 1, so each
      of those bars splits into the two indicator values. */
  lemma DerivedIndicatorsBinary(t: seq<Record>, j: nat)
    requires j < |CatSummary(DeriveTable(t))|
    requires CatSummary(DeriveTable(t))[j].key.variable in ["cholesterol", "gluc", "overweight"]
    ensures CatSummary(DeriveTable(t))[j].key.value in {0, 1}
  {
    var d := DeriveTable(t);
    var o := CatSummary(d)[j].key;
    GroupCountCorrect(Melt(d));
    assert o in Keys(CatSummary(d));
    assert o in Melt(d);
    var k :| 0 <= k < |Melt(d)| && Melt(d)[k] == o;
    MeltColumnsFrom(d, IndicatorColumns, k);
    var i :| 0 <= i < |d| && o == Observation(d[i].cardio, o.variable, Column(d[i], o.variable));
    assert DerivedFrom(t[i], d[i]);
  }
}
