/**
 * A small worked example: three entries for two counties, and the text of
 * each of the three report files they produce.
 */
module Fixture {
  import opened JavaStrings
  import opened Numbers
  import opened Loader
  import opened Reports

  /** Dade appears twice (150 - 100 and 40 - 50), Lee once (5 - 10). */
  const Sample: seq<Entry> := [Entry("Dade", 100.0, 150.0), Entry("Dade", 50.0, 40.0), Entry("Lee", 10.0, 5.0)]

  lemma SampleCount()
    ensures CountText(Sample) == "2"
  {
    var cs := Counties(Sample);
    assert cs == ["Dade", "Dade", "Lee"];
    assert cs[..1] == ["Dade"] && cs[..1][..0] == [];
    assert Distinct(cs[..1]) == ["Dade"];
    assert cs[..2] == ["Dade", "Dade"] && cs[..2][..1] == cs[..1];
    assert Distinct(cs[..2]) == ["Dade"];
    assert Distinct(cs) == ["Dade", "Lee"];
  }

  lemma SampleTotal()
    ensures Tiv2012Text(Sample) == "195.00"
  {
    var es := Sample;
    assert es[..1][..0] == [] && es[..2][..1] == es[..1];
    assert SumTiv2012(es[..1]) == 150.0;
    assert SumTiv2012(es[..2]) == 190.0;
    assert SumTiv2012(es) == 195.0;
    assert HalfUpCents(195.0) == 19500;
    assert NatToString(195) == "195";
  }

  lemma SampleRanking()
    ensures Ranking(Sample) == [Group("Dade", 40.0), Group("Lee", -5.0)]
  {
    var es := Sample;
    SampleCount();
    assert Distinct(Counties(es)) == ["Dade", "Lee"];
    assert es[..1][..0] == [] && es[..2][..1] == es[..1];
    assert GroupSum(es[..1], "Dade") == 50.0 && GroupSum(es[..2], "Dade") == 40.0 && GroupSum(es, "Dade") == 40.0;
    assert es[0].county != "Lee" && es[1].county != "Lee";
    assert GroupSum(es[..1], "Lee") == 0.0;
    assert GroupSum(es[..2], "Lee") == GroupSum(es[..2][..1], "Lee") + 0.0;
    assert GroupSum(es, "Lee") == -5.0;
    var dade := Group("Dade", 40.0);
    var lee := Group("Lee", -5.0);
    assert Groups(es) == [dade, lee];
    assert [dade, lee][1..] == [lee] && [lee][1..] == [];
    assert SortDescending([lee]) == [lee];
    assert SortDescending([dade, lee]) == [dade, lee];
  }

  lemma SampleRankLines()
    ensures RankLine(Group("Dade", 40.0)) == "Dade,40.00"
    ensures RankLine(Group("Lee", -5.0)) == "Lee,-5.00"
  {
    assert HalfUpCents(40.0) == 4000;
    assert HalfUpCents(-5.0) == -500;
    assert NatToString(40) == "40";
    assert NatToString(5) == "5";
  }

  lemma JoinTwo(a: string, b: string, sep: char)
    ensures Join([a, b], sep) == a + [sep] + b
  {
    assert [a, b][1..] == [b];
  }

  lemma SampleRankingBody()
    ensures Join(RankLines([Group("Dade", 40.0), Group("Lee", -5.0)]), '\n') == "Dade,40.00\nLee,-5.00"
  {
    SampleRankLines();
    assert RankLines([Group("Dade", 40.0), Group("Lee", -5.0)]) == ["Dade,40.00", "Lee,-5.00"];
    JoinTwo("Dade,40.00", "Lee,-5.00", '\n');
  }

  lemma SampleTextParts()
    ensures MostValuableText(Sample) == RankingHeader + "\n" + Join(RankLines([Group("Dade", 40.0), Group("Lee", -5.0)]), '\n')
  {
    SampleRanking();
  }

  lemma HeaderThen(body: string)
    requires body == "Dade,40.00\nLee,-5.00"
    ensures RankingHeader + "\n" + body == "country,value\nDade,40.00\nLee,-5.00"
  {
  }

  lemma SampleMostValuable()
    ensures MostValuableText(Sample) == "country,value\nDade,40.00\nLee,-5.00"
  {
    SampleTextParts();
    SampleRankingBody();
    HeaderThen(Join(RankLines([Group("Dade", 40.0), Group("Lee", -5.0)]), '\n'));
  }
}
