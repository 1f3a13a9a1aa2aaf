/** The alarm evaluator run after every successful price refresh
    (`check_alarms`): each stored alarm is judged on its own against the
    current quote of its coin, with strict comparisons, and the percent
    alarms always read the 24-hour change. */
module AlarmRules {
  import opened Types
  import opened Sequences

  function Abs(x: real): (r: real)
    ensures r >= 0.0 && (r == x || r == -x)
  {
    if x < 0.0 then -x else x
  }

  /** The rule of one alarm kind against a quote. */
  function Triggered(kind: AlarmKind, threshold: real, rec: PriceRecord): (b: bool)
    ensures b ==> !kind.Unknown?
    ensures b && kind == PercentDecrease24h ==> rec.change24h < 0.0
    ensures b && (kind == PriceAbove || kind == PriceBelow) ==> rec.price != threshold
  {
    match kind
    case PriceAbove => rec.price > threshold
    case PriceBelow => rec.price < threshold
    case PercentIncrease24h => rec.change24h > threshold
    case PercentDecrease24h => rec.change24h < -Abs(threshold)
    case Unknown(_) => false
  }

  /** An alarm fires when its coin has a current quote and its rule holds. */
  function Fires(priceData: map<string, PriceRecord>, a: Alarm): (b: bool)
    ensures b ==> a.coin in priceData && !a.kind.Unknown?
  {
    a.coin in priceData && Triggered(a.kind, a.threshold, priceData[a.coin])
  }

  /** The alarms that fire this cycle, in the order of the alarm list. */
  function FiredAlarms(priceData: map<string, PriceRecord>, alarms: seq<Alarm>): (fired: seq<Alarm>)
    ensures forall a :: a in fired <==> a in alarms && Fires(priceData, a)
    ensures IsSubsequence(fired, alarms)
    ensures forall a :: a in fired ==> a.coin in priceData && !a.kind.Unknown?
  {
    if |alarms| == 0 then []
    else
      var init := alarms[..|alarms| - 1];
      var last := alarms[|alarms| - 1];
      var earlier := FiredAlarms(priceData, init);
      assert alarms == init + [last];
      if Fires(priceData, last) then
        SubsequenceKeep(earlier, init, last);
        earlier + [last]
      else
        SubsequenceSkip(earlier, init, last);
        earlier
  }

  /** Each alarm is judged on its own: evaluating two halves of the list and
      concatenating the results is the same as evaluating the whole list. */
  lemma {:induction false} FiredAlarmsAppend(priceData: map<string, PriceRecord>, xs: seq<Alarm>, ys: seq<Alarm>)
    ensures FiredAlarms(priceData, xs + ys) == FiredAlarms(priceData, xs) + FiredAlarms(priceData, ys)
    decreases |ys|
  {
    if |ys| == 0 {
      assert xs + ys == xs;
    } else {
      var init, last := ys[..|ys| - 1], ys[|ys| - 1];
      var e := if Fires(priceData, last) then [last] else [];
      var fx, fi := FiredAlarms(priceData, xs), FiredAlarms(priceData, init);
      calc {
        FiredAlarms(priceData, xs + ys);
        { assert xs + ys == (xs + init) + [last];
          FiredAlarmsSnoc(priceData, xs + init, last); }
        FiredAlarms(priceData, xs + init) + e;
        { FiredAlarmsAppend(priceData, xs, init); }
        (fx + fi) + e;
        fx + (fi + e);
        { assert ys == init + [last];
          FiredAlarmsSnoc(priceData, init, last); }
        fx + FiredAlarms(priceData, ys);
      }
    }
  }

  /** One more alarm at the end of the list. */
  lemma FiredAlarmsSnoc(priceData: map<string, PriceRecord>, xs: seq<Alarm>, a: Alarm)
    ensures FiredAlarms(priceData, xs + [a])
         == FiredAlarms(priceData, xs) + (if Fires(priceData, a) then [a] else [])
  {
    var all := xs + [a];
    assert all[..|all| - 1] == xs;
  }

  /** A price-above alarm fires exactly when the price is strictly above the
      threshold, a price-below alarm exactly when it is strictly below, and
      an increase alarm exactly when the 24-hour change strictly exceeds it. */
  lemma PriceAlarmsAreStrict(rec: PriceRecord, t: real)
    ensures Triggered(PriceAbove, t, rec) <==> rec.price > t
    ensures Triggered(PriceBelow, t, rec) <==> rec.price < t
    ensures Triggered(PercentIncrease24h, t, rec) <==> rec.change24h > t
    ensures !Triggered(PriceAbove, rec.price, rec) && !Triggered(PriceBelow, rec.price, rec)
  {
  }

  /** The decrease rule normalises the sign of the threshold: thresholds `t`
      and `-t` fire on exactly the same quotes, namely those whose 24-hour
      change is below `-|t|`. */
  lemma DecreaseIgnoresThresholdSign(rec: PriceRecord, t: real)
    ensures Triggered(PercentDecrease24h, t, rec) <==> Triggered(PercentDecrease24h, -t, rec)
    ensures Triggered(PercentDecrease24h, t, rec) <==> rec.change24h < -t && rec.change24h < t
  {
  }

  /** Two snapshots that agree on every coin's price and 24-hour change fire
      the same alarms, whatever their 7-day changes and slugs: the evaluator
      never looks at the selected display interval. */
  lemma {:induction false} FiredAlarmsIgnoreWeeklyChange(
    p1: map<string, PriceRecord>, p2: map<string, PriceRecord>, alarms: seq<Alarm>)
    requires p1.Keys == p2.Keys
    requires forall c :: c in p1 ==> p1[c].price == p2[c].price && p1[c].change24h == p2[c].change24h
    ensures FiredAlarms(p1, alarms) == FiredAlarms(p2, alarms)
    decreases |alarms|
  {
    if |alarms| > 0 {
      FiredAlarmsIgnoreWeeklyChange(p1, p2, alarms[..|alarms| - 1]);
      var last := alarms[|alarms| - 1];
      assert Fires(p1, last) <==> Fires(p2, last);
    }
  }

  /** With no quote for a coin, none of its alarms fire, and an alarm list
      whose alarms all lack a quote fires nothing. */
  lemma {:induction false} AlarmsWithoutQuotesStaySilent(priceData: map<string, PriceRecord>, alarms: seq<Alarm>)
    requires forall k :: 0 <= k < |alarms| ==> alarms[k].coin !in priceData
    ensures FiredAlarms(priceData, alarms) == []
    decreases |alarms|
  {
    if |alarms| > 0 {
      AlarmsWithoutQuotesStaySilent(priceData, alarms[..|alarms| - 1]);
    }
  }

  /** The worked example: BTC at 70000 with a 3% 24-hour rise fires the
      "above 65000" alarm and not the "increase above 5%" alarm. */
  lemma WorkedExample()
    ensures
      var btc := PriceRecord(70000.0, 3.0, 0.0, "bitcoin");
      var above := Alarm("BTC", PriceAbove, 65000.0, "");
      var rise := Alarm("BTC", PercentIncrease24h, 5.0, "");
      FiredAlarms(map["BTC" := btc], [above, rise]) == [above]
  {
    var btc := PriceRecord(70000.0, 3.0, 0.0, "bitcoin");
    var above := Alarm("BTC", PriceAbove, 65000.0, "");
    var rise := Alarm("BTC", PercentIncrease24h, 5.0, "");
    assert [above, rise][..1] == [above];
    assert [above][..0] == [];
  }

  /** The boundary examples: "above 100" fires at 101 and not at 100 or 99;
      "decrease 5" fires at -6 and not at -5 or -4; "decrease -5" agrees. */
  lemma BoundaryExamples()
    ensures Triggered(PriceAbove, 100.0, PriceRecord(101.0, 0.0, 0.0, ""))
    ensures !Triggered(PriceAbove, 100.0, PriceRecord(100.0, 0.0, 0.0, ""))
    ensures !Triggered(PriceAbove, 100.0, PriceRecord(99.0, 0.0, 0.0, ""))
    ensures Triggered(PercentDecrease24h, 5.0, PriceRecord(1.0, -6.0, 0.0, ""))
    ensures !Triggered(PercentDecrease24h, 5.0, PriceRecord(1.0, -5.0, 0.0, ""))
    ensures !Triggered(PercentDecrease24h, 5.0, PriceRecord(1.0, -4.0, 0.0, ""))
    ensures Triggered(PercentDecrease24h, -5.0, PriceRecord(1.0, -6.0, 0.0, ""))
    ensures !Triggered(PercentDecrease24h, -5.0, PriceRecord(1.0, -5.0, 0.0, ""))
  {
  }
}
