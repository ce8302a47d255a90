/**
 * Worked examples: concrete pages and dictionaries, and what the model says the
 * integration makes of them.
 */
module Scenarios {
  import opened Wrappers
  import opened Text
  import opened HtmlRows
  import opened Extractors
  import opened Sensor

  /** Label spellings that differ only in colons and spaces clean to one key. */
  lemma LabelVariants()
    ensures CleanLabel("余额：") == "余额"
    ensures CleanLabel(" 余额 ") == "余额"
    ensures CleanLabel("余 额:") == "余额"
  {
  }

  /** `<tr><td>余额</td><td> 123.45 元</td></tr>`, written piece by piece. */
  const OneRow := "<tr>" + "<td>" + "余额" + "</td>" + "<td>" + " 123.45 元" + "</td>" + "</tr>"

  lemma OneRowLayout()
    ensures RowAt(OneRow, 0, Layout(4, 8, 10, 15, 19, 28, 33))
  {
  }

  lemma OneRowCells()
    ensures |OneRow| == 38 && OneRow[8..10] == "余额" && OneRow[19..28] == " 123.45 元"
  {
    OneRowLabel();
    OneRowValue();
  }

  lemma OneRowLabel()
    ensures OneRow[8..10] == "余额"
  {
  }

  lemma OneRowValue()
    ensures OneRow[19..28] == " 123.45 元"
  {
  }

  lemma OneRowMatches()
    ensures Matches(OneRow) == [Row(0, "余额", " 123.45 元", 38)]
  {
    var w := Layout(4, 8, 10, 15, 19, 28, 33);
    OneRowLayout();
    OneRowCells();
    MatchAtRow(OneRow, 0, w);
    var t := Attempts(OneRow, |OneRow|);
    AttemptsAt(OneRow, |OneRow|, 0);
    assert t[0] == Some(Row(0, "余额", " 123.45 元", 38));
    assert Walk(t, 0) == [Row(0, "余额", " 123.45 元", 38)] + Walk(t, 38);
  }

  lemma KeyExample()
    ensures CleanLabel("余额") == "余额"
  {
  }

  lemma StripExample()
    ensures Strip(" 123.45 元") == "123.45 元"
  {
    assert PaddedAt(" 123.45 元", 1, "123.45 元");
    StripUnique(" 123.45 元", 1, "123.45 元");
  }

  /** A single row yields a dictionary of its single entry. */
  lemma EntriesSingle(r: Row)
    ensures Assign(Entries([r])) == map[KeyOf(r) := TextOf(r)]
  {
    var e := Entries([r]);
    assert e[0] == (KeyOf(r), TextOf(r));
    assert e[..0] == [];
  }

  /** A page holding the single row `<tr><td>余额</td><td> 123.45 元</td></tr>`
      scrapes to {"余额": "123.45 元"}. */
  lemma OneRowPage()
    ensures Scraped(OneRow) == map["余额" := "123.45 元"]
  {
    var r := Row(0, "余额", " 123.45 元", 38);
    OneRowMatches();
    EntriesSingle(r);
    KeyExample();
    StripExample();
  }

  /** With the first balance label absent the second one is used. */
  lemma BalanceFromSecondSynonym()
    ensures Extract(map["当前余额" := "88.00"], Balance) == Found("88.00")
  {
    var data := map["当前余额" := "88.00"];
    assert LeftmostRunAt("88.00", 0, "88.00");
    FirstNumberUnique("88.00", 0, "88.00");
    assert IsDigit("88.00"[0]);
    assert multiset("88.00")['.'] == 1;
    NumericFieldFirstRun(data, Balance, 1, "88.00");
  }

  /** A usage label whose value holds no digit gives no reading, rather than zero. */
  lemma UsageWithoutDigits()
    ensures Extract(map["累积用气量" := "abc"], Usage) == Missing
  {
    var data := map["累积用气量" := "abc"];
    assert FirstNumber("abc").None?;
    PickMissing(data, Usage.synonyms, Usage.kind);
  }

  /** A run with two points makes `float` raise, and the balance sensor goes
      unavailable with its old value. */
  lemma BalanceWithTwoPoints(state: SensorState)
    ensures Apply(state, Balance, Some(map["余额" := "1.2.3"])) == state.(available := false)
  {
    var data := map["余额" := "1.2.3"];
    assert LeftmostRunAt("1.2.3", 0, "1.2.3");
    FirstNumberUnique("1.2.3", 0, "1.2.3");
    assert multiset("1.2.3")['.'] == 2;
    NumericFieldFirstRun(data, Balance, 0, "1.2.3");
  }

  /** A response with any status other than 200 leaves every sensor unavailable
      with the value it had, whatever the body holds. */
  lemma ServerErrorKeepsValues(state: SensorState, field: Field, code: int, body: string)
    requires code != 200
    ensures Apply(state, field, Page(Response(code, body))) == state.(available := false)
  {
  }
}
