/**
 * The four `_process_data` extractors of the sensor platform. Each sensor looks
 * its reading up in the scraped dictionary under a fixed, ordered list of
 * synonymous labels. The balance and usage sensors report the first run of digits
 * and points in the text they find; the status and update-time sensors report the
 * text itself.
 */
module Extractors {
  import opened Wrappers
  import opened Text

  /** Whether a sensor reports the number in the text it finds, or the text itself. */
  datatype Kind = Numeric | Verbatim

  /** One sensor's lookup: its synonyms in priority order, and what it reports. */
  datatype Field = Field(synonyms: seq<string>, kind: Kind)

  const Balance := Field(["余额", "当前余额", "账户余额"], Numeric)
  const Usage := Field(["累积用气量", "累计用气量", "用气量"], Numeric)
  const Status := Field(["是否通气", "通气状态", "状态"], Verbatim)
  const UpdateTime := Field(["操作时间", "更新时间", "截至时间", "时间"], Verbatim)

  /** What one `_process_data` call comes to. `Found` carries the reading (for a
      numeric field, the run of digits and points handed to `float`); `Missing`
      means the loop ran out of synonyms; `Unparsable` means `float` raised
      `ValueError` on the run it was handed. */
  datatype Extraction = Found(text: string) | Missing | Unparsable(run: string)

  /** Python's `float` accepts a run of digits and points exactly when it holds at
      least one digit and at most one point ("1", "1.", ".5", "1.5", but not "."
      or "1.2.3"). */
  predicate IsFloatLiteral(run: string) {
    multiset(run)['.'] <= 1 && exists k | 0 <= k < |run| :: IsDigit(run[k])
  }

  /** Every digit of `s` is a decimal digit. */
  predicate AllDigits(s: string) {
    forall k | 0 <= k < |s| :: IsDigit(s[k])
  }

  /** Python's grammar for a decimal literal without sign, exponent or
      underscores: digits, digits with a fraction, or a bare fraction. */
  ghost predicate DecimalLiteral(run: string) {
    || (run != [] && AllDigits(run))
    || exists i :: 0 <= i < |run| && run[i] == '.' && AllDigits(run[..i]) && AllDigits(run[i + 1..]) && |run| > 1
  }

  lemma NoPointInDigits(s: string)
    requires AllDigits(s)
    ensures multiset(s)['.'] == 0
  {
  }

  /** The points of `a + [c] + b` are those of `a`, of `c` and of `b`. */
  lemma PointsAround(a: string, c: char, b: string)
    ensures multiset(a + [c] + b)['.'] == multiset(a)['.'] + (if c == '.' then 1 else 0) + multiset(b)['.']
  {
    assert multiset(a + [c] + b) == multiset(a) + multiset([c]) + multiset(b);
  }

  /** A run of digits and points without a point is all digits. */
  lemma PointFreeDigits(s: string)
    requires forall k | 0 <= k < |s| :: IsNumChar(s[k])
    requires multiset(s)['.'] == 0
    ensures AllDigits(s)
  {
    forall k | 0 <= k < |s| ensures IsDigit(s[k]) {
      assert s[k] in multiset(s);
    }
  }

  /** Around the only point of a run, there are digits only. */
  lemma AroundOnlyPoint(run: string, i: nat)
    requires forall k | 0 <= k < |run| :: IsNumChar(run[k])
    requires i < |run| && run[i] == '.' && multiset(run)['.'] <= 1
    ensures AllDigits(run[..i]) && AllDigits(run[i + 1..])
  {
    var a, b := run[..i], run[i + 1..];
    assert run == a + [run[i]] + b;
    PointsAround(a, run[i], b);
    PointFreeDigits(a);
    PointFreeDigits(b);
  }

  lemma FloatToGrammar(run: string)
    requires forall k | 0 <= k < |run| :: IsNumChar(run[k])
    requires IsFloatLiteral(run)
    ensures DecimalLiteral(run)
  {
    if multiset(run)['.'] == 0 {
      PointFreeDigits(run);
    } else {
      assert '.' in multiset(run);
      var i :| 0 <= i < |run| && run[i] == '.';
      AroundOnlyPoint(run, i);
      var d :| 0 <= d < |run| && IsDigit(run[d]);
      assert d != i;
    }
  }

  lemma GrammarToFloat(run: string)
    requires DecimalLiteral(run)
    ensures IsFloatLiteral(run)
  {
    if run != [] && AllDigits(run) {
      NoPointInDigits(run);
      assert IsDigit(run[0]);
    } else {
      var i :| 0 <= i < |run| && run[i] == '.' && AllDigits(run[..i]) && AllDigits(run[i + 1..]) && |run| > 1;
      var a, b := run[..i], run[i + 1..];
      assert run == a + [run[i]] + b;
      PointsAround(a, run[i], b);
      NoPointInDigits(a);
      NoPointInDigits(b);
      if i > 0 {
        assert IsDigit(run[0]) by { assert run[0] == a[0]; }
      } else {
        assert IsDigit(run[1]) by { assert run[1] == b[0]; }
      }
    }
  }

  /** On a run of digits and points, the count-based test is exactly the grammar
      `float` parses. */
  lemma FloatLiteralGrammar(run: string)
    requires forall k | 0 <= k < |run| :: IsNumChar(run[k])
    ensures IsFloatLiteral(run) <==> DecimalLiteral(run)
  {
    if IsFloatLiteral(run) {
      FloatToGrammar(run);
    }
    if DecimalLiteral(run) {
      GrammarToFloat(run);
    }
  }

  /** One pass of the synonym loop: `None` when the loop moves on to the next
      synonym, otherwise how `_process_data` ends. */
  function Attempt(data: map<string, string>, key: string, kind: Kind): (r: Option<Extraction>)
    ensures r != Some(Missing)
    ensures r.Some? ==> key in data
  {
    if key !in data then None
    else
      match kind
      case Verbatim => Some(Found(data[key]))
      case Numeric =>
        match FirstNumber(data[key])
        case None => None
        case Some(run) => Some(if IsFloatLiteral(run) then Found(run) else Unparsable(run))
  }

  /** The synonym loop: the first synonym whose pass concludes decides. Whatever
      it concludes is the outcome of one synonym's pass. */
  function Pick(data: map<string, string>, synonyms: seq<string>, kind: Kind): (r: Extraction)
    ensures r != Missing ==>
      exists i :: 0 <= i < |synonyms| && Attempt(data, synonyms[i], kind) == Some(r)
  {
    if synonyms == [] then Missing
    else
      match Attempt(data, synonyms[0], kind)
      case Some(e) => e
      case None =>
        var r := Pick(data, synonyms[1..], kind);
        assert r != Missing ==> exists i :: 0 <= i < |synonyms| && Attempt(data, synonyms[i], kind) == Some(r) by {
          if r != Missing {
            var i :| 0 <= i < |synonyms[1..]| && Attempt(data, synonyms[1..][i], kind) == Some(r);
            assert synonyms[i + 1] == synonyms[1..][i];
          }
        }
        r
  }

  /** Synonym `i` is the one that decides: its pass concludes and no earlier one does. */
  ghost predicate Decides(data: map<string, string>, synonyms: seq<string>, kind: Kind, i: nat) {
    && i < |synonyms|
    && Attempt(data, synonyms[i], kind).Some?
    && forall j | 0 <= j < i :: Attempt(data, synonyms[j], kind).None?
  }

  /** The loop ends with the outcome of the deciding synonym. */
  lemma {:induction false} PickDecided(data: map<string, string>, synonyms: seq<string>, kind: Kind, i: nat)
    requires Decides(data, synonyms, kind, i)
    ensures Pick(data, synonyms, kind) == Attempt(data, synonyms[i], kind).value
  {
    if i > 0 {
      assert Attempt(data, synonyms[0], kind).None?;
      forall j | 0 <= j < i - 1 ensures Attempt(data, synonyms[1..][j], kind).None? {
        assert synonyms[1..][j] == synonyms[j + 1];
      }
      PickDecided(data, synonyms[1..], kind, i - 1);
    }
  }

  /** The loop finds nothing exactly when no synonym's pass concludes. */
  lemma {:induction false} PickMissing(data: map<string, string>, synonyms: seq<string>, kind: Kind)
    ensures Pick(data, synonyms, kind) == Missing <==>
      forall i | 0 <= i < |synonyms| :: Attempt(data, synonyms[i], kind).None?
  {
    if synonyms != [] {
      PickMissing(data, synonyms[1..], kind);
      if Attempt(data, synonyms[0], kind).None? {
        forall i | 0 < i < |synonyms|
          ensures Attempt(data, synonyms[i], kind) == Attempt(data, synonyms[1..][i - 1], kind)
        {
        }
      }
    }
  }

  /** `_process_data` of the sensor reading `field`: it finds nothing exactly when
      no synonym's pass concludes, and otherwise ends as one synonym's pass does. */
  function Extract(data: map<string, string>, field: Field): (r: Extraction)
    ensures r == Missing <==>
      forall i | 0 <= i < |field.synonyms| :: Attempt(data, field.synonyms[i], field.kind).None?
    ensures r != Missing ==>
      exists i :: 0 <= i < |field.synonyms| && Attempt(data, field.synonyms[i], field.kind) == Some(r)
  {
    PickMissing(data, field.synonyms, field.kind);
    Pick(data, field.synonyms, field.kind)
  }

  /** When the loop finds something, some synonym decided it. */
  lemma {:induction false} PickDecider(data: map<string, string>, synonyms: seq<string>, kind: Kind)
    requires Pick(data, synonyms, kind) != Missing
    ensures exists i: nat :: (Decides(data, synonyms, kind, i) &&
      Pick(data, synonyms, kind) == Attempt(data, synonyms[i], kind).value)
  {
    if Attempt(data, synonyms[0], kind).Some? {
      assert Decides(data, synonyms, kind, 0);
    } else {
      PickDecider(data, synonyms[1..], kind);
      var i: nat :| Decides(data, synonyms[1..], kind, i) &&
        Pick(data, synonyms[1..], kind) == Attempt(data, synonyms[1..][i], kind).value;
      forall j | 0 <= j < i + 1 ensures Attempt(data, synonyms[j], kind).None? {
        if j > 0 {
          assert synonyms[j] == synonyms[1..][j - 1];
        }
      }
      assert Decides(data, synonyms, kind, i + 1);
    }
  }

  /** A text field reports the value under its first synonym present in the
      dictionary, verbatim, whatever that value is. */
  lemma TextFieldFirstPresent(data: map<string, string>, field: Field, i: nat)
    requires field.kind == Verbatim && i < |field.synonyms| && field.synonyms[i] in data
    requires forall j | 0 <= j < i :: field.synonyms[j] !in data
    ensures Extract(data, field) == Found(data[field.synonyms[i]])
  {
    PickDecided(data, field.synonyms, field.kind, i);
  }

  /** A numeric field reports the run taken from the first synonym that is present
      and whose value holds a digit or a point; present synonyms without one are
      passed over. */
  lemma NumericFieldFirstRun(data: map<string, string>, field: Field, i: nat, run: string)
    requires field.kind == Numeric && i < |field.synonyms| && field.synonyms[i] in data
    requires FirstNumber(data[field.synonyms[i]]) == Some(run)
    requires forall j | 0 <= j < i ::
      field.synonyms[j] !in data || FirstNumber(data[field.synonyms[j]]).None?
    ensures Extract(data, field) == if IsFloatLiteral(run) then Found(run) else Unparsable(run)
  {
    PickDecided(data, field.synonyms, field.kind, i);
  }

  /** A numeric pass that concludes with a reading took it from the value's first run. */
  lemma NumericAttempt(data: map<string, string>, key: string, t: string)
    requires Attempt(data, key, Numeric) == Some(Found(t))
    ensures key in data && FirstNumber(data[key]) == Some(t) && IsFloatLiteral(t)
  {
  }

  /** A numeric reading is a run of digits and points, holding at least one digit
      and at most one point, that the value under one of the synonyms begins its
      first such run with. */
  lemma NumericReading(data: map<string, string>, field: Field, t: string)
    requires field.kind == Numeric && Extract(data, field) == Found(t)
    ensures exists i :: (0 <= i < |field.synonyms| && field.synonyms[i] in data &&
      FirstNumber(data[field.synonyms[i]]) == Some(t))
    ensures IsFloatLiteral(t) && forall k | 0 <= k < |t| :: IsNumChar(t[k])
  {
    PickDecider(data, field.synonyms, field.kind);
    var i: nat :| Decides(data, field.synonyms, field.kind, i) &&
      Extract(data, field) == Attempt(data, field.synonyms[i], field.kind).value;
    NumericAttempt(data, field.synonyms[i], t);
    FirstNumberChars(data[field.synonyms[i]], t);
  }

  /** An extractor reads only the entries under its own synonyms: dictionaries that
      agree there give the same outcome. */
  lemma {:induction false} PickFrame(d: map<string, string>, d': map<string, string>, synonyms: seq<string>, kind: Kind)
    requires forall i | 0 <= i < |synonyms| ::
      (synonyms[i] in d <==> synonyms[i] in d') && (synonyms[i] in d ==> d[synonyms[i]] == d'[synonyms[i]])
    ensures Pick(d, synonyms, kind) == Pick(d', synonyms, kind)
  {
    if synonyms != [] {
      assert synonyms[0] in d <==> synonyms[0] in d';
      PickFrame(d, d', synonyms[1..], kind);
    }
  }

  /** The loop consults its first synonym, and only if that pass does not
      conclude the rest. */
  lemma PickStep(data: map<string, string>, synonyms: seq<string>, kind: Kind)
    requires synonyms != []
    ensures Pick(data, synonyms, kind) ==
      if Attempt(data, synonyms[0], kind).Some? then Attempt(data, synonyms[0], kind).value
      else Pick(data, synonyms[1..], kind)
  {
  }

  /** A loop over the synonyms `a`, `b`, `c` consults them in that order. */
  lemma PickThree(data: map<string, string>, a: string, b: string, c: string, kind: Kind)
    ensures Pick(data, [a, b, c], kind) ==
      if Attempt(data, a, kind).Some? then Attempt(data, a, kind).value
      else if Attempt(data, b, kind).Some? then Attempt(data, b, kind).value
      else if Attempt(data, c, kind).Some? then Attempt(data, c, kind).value
      else Missing
  {
    PickStep(data, [a, b, c], kind);
    assert [a, b, c][1..] == [b, c];
    PickStep(data, [b, c], kind);
    assert [b, c][1..] == [c];
    PickStep(data, [c], kind);
    assert [c][1..] == [];
  }

  /** The balance sensor consults "余额", then "当前余额", then "账户余额", and
      the first of them whose pass concludes decides. */
  lemma BalanceOrder(data: map<string, string>)
    ensures Extract(data, Balance) ==
      if Attempt(data, "余额", Numeric).Some? then Attempt(data, "余额", Numeric).value
      else if Attempt(data, "当前余额", Numeric).Some? then Attempt(data, "当前余额", Numeric).value
      else if Attempt(data, "账户余额", Numeric).Some? then Attempt(data, "账户余额", Numeric).value
      else Missing
  {
    PickThree(data, "余额", "当前余额", "账户余额", Numeric);
  }

  /** The usage sensor consults "累积用气量", then "累计用气量", then "用气量". */
  lemma UsageOrder(data: map<string, string>)
    ensures Extract(data, Usage) ==
      if Attempt(data, "累积用气量", Numeric).Some? then Attempt(data, "累积用气量", Numeric).value
      else if Attempt(data, "累计用气量", Numeric).Some? then Attempt(data, "累计用气量", Numeric).value
      else if Attempt(data, "用气量", Numeric).Some? then Attempt(data, "用气量", Numeric).value
      else Missing
  {
    PickThree(data, "累积用气量", "累计用气量", "用气量", Numeric);
  }

  /** The status sensor reports the value under "是否通气", else under "通气状态",
      else under "状态", verbatim. */
  lemma StatusOrder(data: map<string, string>)
    ensures Extract(data, Status) ==
      if "是否通气" in data then Found(data["是否通气"])
      else if "通气状态" in data then Found(data["通气状态"])
      else if "状态" in data then Found(data["状态"])
      else Missing
  {
    PickThree(data, "是否通气", "通气状态", "状态", Verbatim);
  }

  /** The update-time sensor reports the value under "操作时间", else "更新时间",
      else "截至时间", else "时间", verbatim. */
  lemma UpdateTimeOrder(data: map<string, string>)
    ensures Extract(data, UpdateTime) ==
      if "操作时间" in data then Found(data["操作时间"])
      else if "更新时间" in data then Found(data["更新时间"])
      else if "截至时间" in data then Found(data["截至时间"])
      else if "时间" in data then Found(data["时间"])
      else Missing
  {
    var syn := UpdateTime.synonyms;
    PickStep(data, syn, Verbatim);
    assert syn[1..] == ["更新时间", "截至时间", "时间"];
    PickThree(data, "更新时间", "截至时间", "时间", Verbatim);
  }

  /** With an empty dictionary every extractor comes back empty-handed. */
  lemma ExtractEmpty(field: Field)
    ensures Extract(map[], field) == Missing
  {
    PickMissing(map[], field.synonyms, field.kind);
  }
}
