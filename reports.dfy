/**
 * The three report producers of `FloridaInsurance`, each as the text it hands
 * to `writeToFile`: the number of distinct counties (`generateCountFile`),
 * the exact total of `tiv_2012` (`generateTiv2012File`) and the ten counties
 * with the largest summed change from 2011 to 2012 (`generateMostValuableFile`).
 */
module Reports {
  import opened Wrappers
  import opened JavaStrings
  import opened Numbers
  import opened Loader

  /** No element occurs twice. */
  predicate NoDuplicates<T(==)>(xs: seq<T>) {
    forall i, j :: 0 <= i < j < |xs| ==> xs[i] != xs[j]
  }

  /** `map(InsuranceEntry::getCounty)`. */
  function Counties(es: seq<Entry>): (cs: seq<string>)
    ensures |cs| == |es|
    ensures forall i :: 0 <= i < |es| ==> cs[i] == es[i].county
  {
    seq(|es|, i requires 0 <= i < |es| => es[i].county)
  }

  /** The set of county names among the entries. */
  function CountySet(es: seq<Entry>): set<string> {
    set e | e in es :: e.county
  }

  /** `Stream.distinct`: the first occurrence of each element, in order. */
  function Distinct(xs: seq<string>): (r: seq<string>)
    ensures NoDuplicates(r)
    ensures forall x :: x in r <==> x in xs
    ensures |r| <= |xs|
    decreases |xs|
  {
    if |xs| == 0 then []
    else
      var init := xs[..|xs| - 1];
      var d := Distinct(init);
      assert xs == init + [xs[|xs| - 1]];
      if xs[|xs| - 1] in d then d else d + [xs[|xs| - 1]]
  }

  /** The count `generateCountFile` writes. */
  function CountyCount(es: seq<Entry>): nat {
    |Distinct(Counties(es))|
  }

  /** `String.valueOf(count)`: the text of count.txt. */
  function CountText(es: seq<Entry>): string {
    NatToString(CountyCount(es))
  }

  lemma {:induction false} NoDuplicatesCardinality<T>(xs: seq<T>)
    requires NoDuplicates(xs)
    ensures |set x | x in xs| == |xs|
    decreases |xs|
  {
    if |xs| > 0 {
      var init := xs[..|xs| - 1];
      NoDuplicatesCardinality(init);
      assert (set x | x in xs) == (set x | x in init) + {xs[|xs| - 1]};
      assert xs[|xs| - 1] !in init;
    }
  }

  lemma CountySetIsCounties(es: seq<Entry>)
    ensures forall c :: c in CountySet(es) <==> c in Counties(es)
  {
    forall c | c in Counties(es)
      ensures c in CountySet(es)
    {
      var i :| 0 <= i < |es| && Counties(es)[i] == c;
      assert es[i] in es;
    }
  }

  /**
   * The count is the number of distinct county names: zero for no entries and
   * never more than the number of entries.
   */
  lemma CountyCountIsDistinct(es: seq<Entry>)
    ensures CountyCount(es) == |CountySet(es)|
    ensures CountyCount(es) <= |es|
    ensures |es| == 0 ==> CountyCount(es) == 0
  {
    var d := Distinct(Counties(es));
    CountySetIsCounties(es);
    NoDuplicatesCardinality(d);
    assert (set x | x in d) == CountySet(es);
  }

  /** count.txt holds the decimal digits of the number of distinct counties; "0" for no entries. */
  lemma CountTextMeaning(es: seq<Entry>)
    ensures AllDigits(CountText(es))
    ensures DigitsValue(CountText(es)) == |CountySet(es)|
    ensures |es| == 0 ==> CountText(es) == "0"
  {
    CountyCountIsDistinct(es);
    NatToStringRoundTrip(CountyCount(es));
  }

  /** `reduce(BigDecimal.ZERO, BigDecimal::add)` over the `tiv_2012` values, exact. */
  function SumTiv2012(es: seq<Entry>): real
    decreases |es|
  {
    if |es| == 0 then 0.0 else SumTiv2012(es[..|es| - 1]) + es[|es| - 1].tiv2012
  }

  /** The total over consecutive stretches of entries is the sum of their totals. */
  lemma {:induction false} SumTiv2012Append(a: seq<Entry>, b: seq<Entry>)
    ensures SumTiv2012(a + b) == SumTiv2012(a) + SumTiv2012(b)
    decreases |b|
  {
    if |b| == 0 {
      assert a + b == a;
    } else {
      SumTiv2012Append(a, b[..|b| - 1]);
      assert (a + b)[..|a + b| - 1] == a + b[..|b| - 1];
    }
  }

  /** The text of tiv2012.txt. */
  function Tiv2012Text(es: seq<Entry>): string {
    FormatTotal(SumTiv2012(es))
  }

  /**
   * tiv2012.txt reads back as the exact total rounded HALF_UP to hundredths,
   * and it is "0.00" for no entries.
   */
  lemma Tiv2012TextMeaning(es: seq<Entry>)
    ensures ParseFixed2(Tiv2012Text(es)) == Some(HalfUpCents(SumTiv2012(es)))
    ensures |es| == 0 ==> Tiv2012Text(es) == "0.00"
  {
    FormatTotalRoundTrip(SumTiv2012(es));
    if |es| == 0 {
      assert HalfUpCents(0.0) == 0;
      assert NatToString(0) == "0";
    }
  }

  /** One entry of the grouping map: a county and its summed change. */
  datatype Group = Group(county: string, value: real)

  /** `tiv2012 - tiv2011` of one entry. */
  function Change(e: Entry): real {
    e.tiv2012 - e.tiv2011
  }

  /** `groupingBy(getCounty, mapping(change, reducing(ZERO, add)))` for one county. */
  function GroupSum(es: seq<Entry>, county: string): real
    decreases |es|
  {
    if |es| == 0 then 0.0
    else
      var e := es[|es| - 1];
      GroupSum(es[..|es| - 1], county) + (if e.county == county then Change(e) else 0.0)
  }

  /**
   * The grouping map's entries: one per distinct county, holding that county's
   * summed change. (The map is a `HashMap`; its iteration order is modelled as
   * the order of first appearance.)
   */
  function Groups(es: seq<Entry>): (gs: seq<Group>)
    ensures |gs| == CountyCount(es)
    ensures forall i :: 0 <= i < |gs| ==> gs[i].county in CountySet(es) && gs[i].value == GroupSum(es, gs[i].county)
    ensures forall i, j :: 0 <= i < j < |gs| ==> gs[i].county != gs[j].county
  {
    CountySetIsCounties(es);
    GroupsOf(es, Distinct(Counties(es)))
  }

  /** Every county of the entries has its group. */
  lemma GroupsCover(es: seq<Entry>, county: string)
    requires county in CountySet(es)
    ensures Group(county, GroupSum(es, county)) in Groups(es)
  {
    CountySetIsCounties(es);
    var cs := Distinct(Counties(es));
    var i :| 0 <= i < |cs| && cs[i] == county;
    assert Groups(es)[i].county == county;
  }

  /** The summed change over all entries, regardless of county. */
  function SumChange(es: seq<Entry>): real
    decreases |es|
  {
    if |es| == 0 then 0.0 else SumChange(es[..|es| - 1]) + Change(es[|es| - 1])
  }

  /** The values of a sequence of groups, added up. */
  function SumValues(gs: seq<Group>): real
    decreases |gs|
  {
    if |gs| == 0 then 0.0 else SumValues(gs[..|gs| - 1]) + gs[|gs| - 1].value
  }

  /** The groups of the given counties, in their order. */
  function GroupsOf(es: seq<Entry>, cs: seq<string>): (gs: seq<Group>)
    ensures |gs| == |cs|
    ensures forall i :: 0 <= i < |cs| ==> gs[i] == Group(cs[i], GroupSum(es, cs[i]))
  {
    seq(|cs|, i requires 0 <= i < |cs| => Group(cs[i], GroupSum(es, cs[i])))
  }

  lemma {:induction false} GroupSumAbsent(es: seq<Entry>, county: string)
    requires county !in Counties(es)
    ensures GroupSum(es, county) == 0.0
    decreases |es|
  {
    if |es| > 0 {
      var init := es[..|es| - 1];
      assert Counties(init) == Counties(es)[..|es| - 1];
      GroupSumAbsent(init, county);
      assert Counties(es)[|es| - 1] == es[|es| - 1].county;
    }
  }

  /** Appending an entry adds its change to the group of its county and to no other. */
  lemma {:induction false} GroupsOfStep(es: seq<Entry>, e: Entry, cs: seq<string>)
    requires NoDuplicates(cs)
    ensures SumValues(GroupsOf(es + [e], cs)) == SumValues(GroupsOf(es, cs)) + (if e.county in cs then Change(e) else 0.0)
    decreases |cs|
  {
    if |cs| > 0 {
      var init := cs[..|cs| - 1];
      GroupsOfStep(es, e, init);
      assert GroupsOf(es + [e], cs)[..|cs| - 1] == GroupsOf(es + [e], init);
      assert GroupsOf(es, cs)[..|cs| - 1] == GroupsOf(es, init);
      assert (es + [e])[..|es|] == es;
      assert e.county in cs <==> e.county in init || e.county == cs[|cs| - 1];
      if e.county == cs[|cs| - 1] {
        assert e.county !in init;
      }
    }
  }

  lemma GroupsOfSnoc(es: seq<Entry>, cs: seq<string>, county: string)
    ensures SumValues(GroupsOf(es, cs + [county])) == SumValues(GroupsOf(es, cs)) + GroupSum(es, county)
  {
    assert GroupsOf(es, cs + [county])[..|cs|] == GroupsOf(es, cs);
  }

  lemma DistinctSnoc(es: seq<Entry>)
    requires |es| > 0
    ensures var init := es[..|es| - 1]; var d := Distinct(Counties(init)); var c := es[|es| - 1].county;
      Distinct(Counties(es)) == if c in d then d else d + [c]
  {
    assert Counties(es)[..|es| - 1] == Counties(es[..|es| - 1]);
  }

  lemma {:induction false} DistinctGroupsPartition(es: seq<Entry>)
    ensures SumValues(GroupsOf(es, Distinct(Counties(es)))) == SumChange(es)
    decreases |es|
  {
    if |es| > 0 {
      var init := es[..|es| - 1];
      var e := es[|es| - 1];
      var d := Distinct(Counties(init));
      DistinctGroupsPartition(init);
      DistinctSnoc(es);
      assert es == init + [e];
      GroupsOfStep(init, e, d);
      if e.county !in d {
        CountySetIsCounties(init);
        GroupSumAbsent(init, e.county);
        GroupsOfSnoc(es, d, e.county);
      }
    }
  }

  /**
   * Grouping loses nothing: the values of all groups add up to the summed
   * change over every entry.
   */
  lemma GroupsPartition(es: seq<Entry>)
    ensures SumValues(Groups(es)) == SumChange(es)
  {
    DistinctGroupsPartition(es);
  }

  /** Values never increase down the sequence. */
  predicate NonIncreasing(gs: seq<Group>) {
    forall i, j :: 0 <= i < j < |gs| ==> gs[i].value >= gs[j].value
  }

  /** Each value is at least the next one. */
  predicate Descending(gs: seq<Group>) {
    forall i :: 0 <= i < |gs| - 1 ==> gs[i].value >= gs[i + 1].value
  }

  lemma {:induction false} DescendingNonIncreasing(gs: seq<Group>)
    requires Descending(gs)
    ensures NonIncreasing(gs)
    decreases |gs|
  {
    if |gs| > 1 {
      DescendingNonIncreasing(gs[1..]);
      forall j | 1 <= j < |gs|
        ensures gs[0].value >= gs[j].value
      {
        assert gs[1..][0] == gs[1];
        if j > 1 {
          assert gs[1..][0].value >= gs[1..][j - 1].value;
        }
      }
    }
  }

  /** Places `g` into a descending sequence, keeping it descending. */
  function Insert(g: Group, gs: seq<Group>): (r: seq<Group>)
    requires Descending(gs)
    ensures Descending(r)
    ensures multiset(r) == multiset(gs) + multiset{g}
    ensures |r| == |gs| + 1
    ensures r[0] == g || (|gs| > 0 && r[0] == gs[0])
  {
    if |gs| == 0 then [g]
    else if g.value >= gs[0].value then [g] + gs
    else
      var rest := Insert(g, gs[1..]);
      assert gs == [gs[0]] + gs[1..];
      [gs[0]] + rest
  }

  /** `sorted((e1, e2) -> e2.getValue().compareTo(e1.getValue()))`: the same groups by descending value. */
  function SortDescending(gs: seq<Group>): (r: seq<Group>)
    ensures Descending(r)
    ensures multiset(r) == multiset(gs)
  {
    if |gs| == 0 then []
    else
      assert gs == [gs[0]] + gs[1..];
      Insert(gs[0], SortDescending(gs[1..]))
  }

  /** `limit(10)` after sorting: the ranked groups of most_valuable.txt. */
  function Ranking(es: seq<Entry>): seq<Group> {
    var sorted := SortDescending(Groups(es));
    if |sorted| <= 10 then sorted else sorted[..10]
  }

  function Min(a: int, b: int): int {
    if a < b then a else b
  }

  lemma {:induction false} NoDuplicatesMultiplicity(xs: seq<Group>, x: Group)
    requires NoDuplicates(xs)
    ensures multiset(xs)[x] <= 1
    decreases |xs|
  {
    if |xs| > 0 {
      var init := xs[..|xs| - 1];
      NoDuplicatesMultiplicity(init, x);
      assert xs == init + [xs[|xs| - 1]];
      if x == xs[|xs| - 1] {
        assert x !in init;
      }
    }
  }

  lemma RepeatedMultiplicity(xs: seq<Group>, i: nat, j: nat)
    requires i < j < |xs| && xs[i] == xs[j]
    ensures multiset(xs)[xs[i]] >= 2
  {
    assert xs == xs[..j] + xs[j..];
    assert xs[i] in xs[..j];
    assert xs[j..][0] == xs[j];
  }

  lemma SortedLength(gs: seq<Group>)
    ensures |SortDescending(gs)| == |gs|
  {
    assert |multiset(SortDescending(gs))| == |multiset(gs)|;
  }

  /**
   * `limit(10)` keeps ten groups, or every county when there are fewer; the
   * ranking is empty exactly when there are no entries.
   */
  lemma RankingSize(es: seq<Entry>)
    ensures |Ranking(es)| == Min(10, |CountySet(es)|)
    ensures |Ranking(es)| == 0 <==> |es| == 0
  {
    SortedLength(Groups(es));
    CountyCountIsDistinct(es);
    if |es| > 0 {
      assert es[0].county in CountySet(es);
    }
  }

  /** The ranked values never increase. */
  lemma RankingOrdered(es: seq<Entry>)
    ensures NonIncreasing(Ranking(es))
  {
    DescendingNonIncreasing(SortDescending(Groups(es)));
  }

  /**
   * Each ranked row is a county of the entries with the exact sum of
   * `tiv_2012 - tiv_2011` over that county's entries, and no county is ranked twice.
   */
  lemma RankingGroups(es: seq<Entry>)
    ensures forall i :: 0 <= i < |Ranking(es)| ==>
              Ranking(es)[i].county in CountySet(es) && Ranking(es)[i].value == GroupSum(es, Ranking(es)[i].county)
    ensures forall i, j :: 0 <= i < j < |Ranking(es)| ==> Ranking(es)[i].county != Ranking(es)[j].county
  {
    var gs := Groups(es);
    var sorted := SortDescending(gs);
    var r := Ranking(es);
    assert r <= sorted;
    forall i | 0 <= i < |r|
      ensures r[i] in gs
    {
      assert r[i] == sorted[i];
      assert sorted[i] in multiset(sorted);
    }
    forall i, j | 0 <= i < j < |r|
      ensures r[i].county != r[j].county
    {
      if r[i].county == r[j].county {
        assert r[i] in gs && r[j] in gs;
        assert r[i] == r[j];
        RepeatedMultiplicity(sorted, i, j);
        assert NoDuplicates(gs);
        NoDuplicatesMultiplicity(gs, r[i]);
        assert false;
      }
    }
  }

  /** A county left out of the ranking sums to no more than any ranked county. */
  lemma RankingIsTop(es: seq<Entry>, county: string)
    requires county in CountySet(es)
    requires forall i :: 0 <= i < |Ranking(es)| ==> Ranking(es)[i].county != county
    ensures forall i :: 0 <= i < |Ranking(es)| ==> GroupSum(es, county) <= Ranking(es)[i].value
  {
    var g := Group(county, GroupSum(es, county));
    var sorted := SortDescending(Groups(es));
    GroupsCover(es, county);
    assert g in multiset(Groups(es));
    assert g in sorted;
    var k :| 0 <= k < |sorted| && sorted[k] == g;
    DescendingNonIncreasing(sorted);
  }

  /** The header line of most_valuable.txt, as the program writes it. */
  const RankingHeader: string := "country,value"

  /** One ranked row: the county, a comma and the sum rounded HALF_UP to hundredths. */
  function RankLine(g: Group): string {
    g.county + "," + FormatCents(HalfUpCents(g.value))
  }

  function RankLines(gs: seq<Group>): (ls: seq<string>)
    ensures |ls| == |gs|
    ensures forall i :: 0 <= i < |gs| ==> ls[i] == RankLine(gs[i])
  {
    seq(|gs|, i requires 0 <= i < |gs| => RankLine(gs[i]))
  }

  /** The text of most_valuable.txt: the header, a line break and the rows joined by line breaks. */
  function MostValuableText(es: seq<Entry>): string {
    RankingHeader + "\n" + Join(RankLines(Ranking(es)), '\n')
  }

  /** A ranked row splits at its comma into the county and an amount that reads back as the rounded sum. */
  lemma RankLineFields(g: Group)
    requires ',' !in g.county
    ensures SplitAll(RankLine(g), ',') == [g.county, FormatCents(HalfUpCents(g.value))]
    ensures ParseFixed2(SplitAll(RankLine(g), ',')[1]) == Some(HalfUpCents(g.value))
  {
    var amount := FormatCents(HalfUpCents(g.value));
    FormatCentsChars(HalfUpCents(g.value));
    SplitAllNoSeparator(amount, ',');
    SplitAllAtFirst(g.county, ',', amount);
    FormatCentsRoundTrip(HalfUpCents(g.value));
  }

  /**
   * With no entries the file is the header and a line break; otherwise its
   * lines are the header followed by one row per ranked county, with no line
   * break after the last row.
   */
  lemma MostValuableTextLines(es: seq<Entry>)
    requires forall e :: e in es ==> '\n' !in e.county
    ensures |es| == 0 ==> MostValuableText(es) == RankingHeader + "\n"
    ensures |es| > 0 ==> SplitAll(MostValuableText(es), '\n') == [RankingHeader] + RankLines(Ranking(es))
  {
    var r := Ranking(es);
    var ls := RankLines(r);
    RankingSize(es);
    RankingGroups(es);
    if |es| == 0 {
      assert ls == [];
    } else {
      forall k | 0 <= k < |ls|
        ensures '\n' !in ls[k]
      {
        var e :| e in es && e.county == r[k].county;
        FormatCentsChars(HalfUpCents(r[k].value));
      }
      SplitJoin(ls, '\n');
      assert MostValuableText(es) == RankingHeader + ['\n'] + Join(ls, '\n');
      SplitAllAtFirst(RankingHeader, '\n', Join(ls, '\n'));
    }
  }

  /**
   * Reading most_valuable.txt back: the line after the header at rank `k`
   * names a county of the entries and holds that county's exact summed change
   * rounded HALF_UP to hundredths.
   */
  lemma MostValuableRow(es: seq<Entry>, k: nat)
    requires forall e :: e in es ==> '\n' !in e.county && ',' !in e.county
    requires k < |Ranking(es)|
    ensures var lines := SplitAll(MostValuableText(es), '\n');
      k + 1 < |lines| &&
      var fields := SplitAll(lines[k + 1], ',');
      |fields| == 2 && fields[0] in CountySet(es) &&
      ParseFixed2(fields[1]) == Some(HalfUpCents(GroupSum(es, fields[0])))
  {
    var r := Ranking(es);
    RankingSize(es);
    RankingGroups(es);
    MostValuableTextLines(es);
    var e :| e in es && e.county == r[k].county;
    RankLineFields(r[k]);
  }
}
