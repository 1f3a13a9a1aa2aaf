/** The main window's session steps: the refresh cycle of `update_prices`,
    the two combo-box handlers, and the state invariant that every step
    keeps — the watch list has no duplicates and every cached quote belongs
    to a watched coin. */
module Widget {
  import opened Options
  import opened Strings
  import opened Sequences
  import opened Types
  import opened CoinApi
  import opened AlarmRules
  import opened PriceDisplay
  import opened WatchList

  /** The items of the "Refresh" combo box; the first is selected at start. */
  const RefreshChoices: seq<string> := ["5 min", "15 min", "1 hour"]

  /** The state right after start-up, before the first fetch: the stored
      lists, no quotes, the daily change, and the period of the first
      "Refresh" item. */
  function InitialSession(coins: seq<string>, alarms: seq<Alarm>): (s: Session)
    ensures s.coins == coins && s.alarms == alarms
    ensures s.priceData == map[] && s.changeInterval == Change24h
    ensures RefreshMillis(RefreshChoices[0]) == Some(s.refreshMillis)
  {
    RefreshChoicesMillis(RefreshChoices[0]);
    Session(coins, map[], alarms, Change24h, 5 * 60 * 1000)
  }

  // ---------------------------------------------------------------------------
  // Refresh period
  // ---------------------------------------------------------------------------

  /** The timer period `set_update_interval` derives from the combo text:
      the first word read as a whole number of minutes when the text
      mentions "min", else of hours when it mentions "hour"; None when the
      timer is left alone. */
  function RefreshMillis(text: string): (ms: Option<nat>)
    ensures ms.Some? ==> Contains(text, "min") || Contains(text, "hour")
  {
    if Contains(text, "min") then
      match FirstToken(text)
      case Some(t) =>
        (match ParseNat(t)
         case Some(n) => Some(n * 60 * 1000)
         case None => None)
      case None => None
    else if Contains(text, "hour") then
      match FirstToken(text)
      case Some(t) =>
        (match ParseNat(t)
         case Some(n) => Some(n * 60 * 60 * 1000)
         case None => None)
      case None => None
    else None
  }

  /** "N min" is N minutes and "N hour" is N hours, in milliseconds. */
  lemma RefreshMillisUnits(n: nat)
    ensures RefreshMillis(DecimalString(n) + " min") == Some(n * 60000)
    ensures RefreshMillis(DecimalString(n) + " hour") == Some(n * 3600000)
  {
    var d := DecimalString(n);
    FirstTokenOfWord(d, "min");
    FirstTokenOfWord(d, "hour");
    assert d + " min" == d + " " + "min";
    assert d + " hour" == d + " " + "hour";
    assert Contains(d + " min", "min") by {
      ContainsPrefix("min", "min");
      ContainsAppend(d + " ", "min", "min");
      assert d + " " + "min" == d + " min";
    }
    assert !Contains(d + " hour", "min") by {
      assert forall i :: 0 <= i < |d| ==> d[i] != 'm';
      assert 'm' !in d + " hour";
      NotContainsWithoutFirstChar(d + " hour", "min");
    }
    assert Contains(d + " hour", "hour") by {
      ContainsPrefix("hour", "hour");
      ContainsAppend(d + " ", "hour", "hour");
      assert d + " " + "hour" == d + " hour";
    }
  }

  /** The three choices give five minutes, fifteen minutes and one hour. */
  lemma RefreshChoicesMillis(text: string)
    requires text in RefreshChoices
    ensures text == RefreshChoices[0] ==> RefreshMillis(text) == Some(300000)
    ensures text == RefreshChoices[1] ==> RefreshMillis(text) == Some(900000)
    ensures text == RefreshChoices[2] ==> RefreshMillis(text) == Some(3600000)
  {
    if text == RefreshChoices[0] {
      SingleDigitMillis(5, text, "5 hour");
    } else if text == RefreshChoices[1] {
      FifteenMinutes(15, text);
    } else {
      SingleDigitMillis(1, "1 min", text);
    }
  }

  /** The texts are passed in, tied to `n`, so that the solver works on them
      by their parts rather than character by character. */
  lemma SingleDigitMillis(n: nat, minutes: string, hours: string)
    requires n < 10 && minutes == [DigitChar(n)] + " min" && hours == [DigitChar(n)] + " hour"
    ensures RefreshMillis(minutes) == Some(n * 60000)
    ensures RefreshMillis(hours) == Some(n * 3600000)
  {
    RefreshMillisUnits(n);
  }

  /** The text is passed in for the same reason as in `SingleDigitMillis`. */
  lemma FifteenMinutes(n: nat, text: string)
    requires n == 15 && text == "15 min"
    ensures RefreshMillis(text) == Some(900000)
  {
    assert DecimalString(n) + " min" == text by {
      var tens := n / 10;
      assert DecimalString(n) == DecimalString(tens) + [DigitChar(n % 10)];
      assert DecimalString(tens) == [DigitChar(tens)];
    }
    RefreshMillisUnits(n);
  }

  /** `set_update_interval`: restarts the timer with the new period, if
      any; nothing else in the session changes. */
  function SetUpdateInterval(s: Session, text: string): (r: Session)
    ensures r.(refreshMillis := s.refreshMillis) == s
    ensures r.refreshMillis != s.refreshMillis ==> RefreshMillis(text) == Some(r.refreshMillis)
    ensures RefreshMillis(text).Some? ==> r.refreshMillis == RefreshMillis(text).value
  {
    match RefreshMillis(text)
    case Some(ms) => s.(refreshMillis := ms)
    case None => s
  }

  // ---------------------------------------------------------------------------
  // Change interval
  // ---------------------------------------------------------------------------

  /** `on_change_interval_selected`: a text naming "24h" selects the daily
      change, else one naming "7d" the weekly change; any other text keeps
      the current choice. */
  function SelectChangeInterval(current: ChangeInterval, text: string): (i: ChangeInterval)
    ensures Contains(text, "24h") ==> i == Change24h
    ensures !Contains(text, "24h") && Contains(text, "7d") ==> i == Change7d
    ensures !Contains(text, "24h") && !Contains(text, "7d") ==> i == current
  {
    if Contains(text, "24h") then Change24h
    else if Contains(text, "7d") then Change7d
    else current
  }

  /** Choosing an interval and redrawing: only the interval changes, the
      redrawn rows show the same coins, price labels and slugs as before,
      and each arrow now follows the chosen change. */
  function OnChangeIntervalSelected(s: Session, text: string): (r: (Session, seq<Row>))
    ensures r.0.(changeInterval := s.changeInterval) == s
    ensures r.0.changeInterval == SelectChangeInterval(s.changeInterval, text)
    ensures var before := DisplayRows(s.coins, s.priceData, s.changeInterval);
      && |r.1| == |before|
      && forall k :: 0 <= k < |r.1| ==>
           && r.1[k].(direction := Flat) == before[k].(direction := Flat)
           && r.1[k].coin in s.priceData
           && r.1[k].direction == Classify(SelectedChange(s.priceData[r.1[k].coin], r.0.changeInterval))
  {
    var s' := s.(changeInterval := SelectChangeInterval(s.changeInterval, text));
    IntervalSwitchKeepsPrices(s.coins, s.priceData, s'.changeInterval, s.changeInterval);
    (s', DisplayRows(s'.coins, s'.priceData, s'.changeInterval))
  }

  /** The two items of the "Change" combo box select the two intervals. */
  lemma ChangeChoices(current: ChangeInterval)
    ensures SelectChangeInterval(current, "Change (24h)") == Change24h
    ensures SelectChangeInterval(current, "Change (7d)") == Change7d
  {
    ChangeTexts(current, "Change (24h)", "Change (7d)");
  }

  /** The two combo texts, passed in so that the solver works on them by
      their parts rather than character by character. */
  lemma ChangeTexts(current: ChangeInterval, daily: string, weekly: string)
    requires daily == "Change (24h)" && weekly == "Change (7d)"
    ensures SelectChangeInterval(current, daily) == Change24h
    ensures SelectChangeInterval(current, weekly) == Change7d
  {
    var prefix, day, week := "Change (", "24h", "7d";
    var dayTail, weekTail := day + ")", week + ")";
    assert daily == prefix + dayTail && weekly == prefix + weekTail;
    ContainsPrefix(dayTail, day);
    ContainsAppend(prefix, dayTail, day);
    ContainsPrefix(weekTail, week);
    ContainsAppend(prefix, weekTail, week);
    assert forall i :: 0 <= i < |weekly| ==> weekly[i] != day[0];
    NotContainsWithoutFirstChar(weekly, day);
  }

  // ---------------------------------------------------------------------------
  // Refresh cycle
  // ---------------------------------------------------------------------------

  /** What one refresh leaves behind: the new state, the redrawn rows (None
      when the panel is not redrawn and keeps showing the old rows), the
      alarms that fire, and whether the "API Error" tray message is shown. */
  datatype Cycle = Cycle(session: Session, rows: Option<seq<Row>>, fired: seq<Alarm>, apiError: bool)

  /** The state step of `update_prices`: on failure nothing changes and the
      error is reported; on success the quote cache is replaced wholesale,
      the panel is redrawn and the alarms are evaluated. */
  function UpdatePrices(s: Session, fetched: Option<map<string, PriceRecord>>): (c: Cycle)
    ensures fetched.None? ==> c == Cycle(s, None, [], true)
    ensures fetched.Some? ==>
      && c.session == s.(priceData := fetched.value)
      && !c.apiError
      && c.fired == FiredAlarms(fetched.value, s.alarms)
      && c.rows == Some(DisplayRows(s.coins, fetched.value, s.changeInterval))
      && (forall x :: x in CoinsOf(c.rows.value) <==> x in s.coins && x in fetched.value)
      && (forall x :: multiset(CoinsOf(c.rows.value))[x] == if x in fetched.value then multiset(s.coins)[x] else 0)
  {
    match fetched
    case None => Cycle(s, None, [], true)
    case Some(quotes) =>
      var s' := s.(priceData := quotes);
      Cycle(s', Some(DisplayRows(s'.coins, quotes, s'.changeInterval)), FiredAlarms(quotes, s'.alarms), false)
  }

  /** One timer tick: fetch the watched coins' quotes (the response of the
      HTTP call is a parameter) and apply them. */
  function RefreshCycle(s: Session, response: Option<Json>): (c: Cycle)
    requires |s.coins| > 0 && response.Some? ==> WellFormedResponse(s.coins, response.value)
    ensures c.session.coins == s.coins && c.session.alarms == s.alarms
    ensures c.session.changeInterval == s.changeInterval && c.session.refreshMillis == s.refreshMillis
    ensures forall x :: x in c.session.priceData ==> x in s.coins || x in s.priceData
  {
    UpdatePrices(s, GetCurrentPrices(s.coins, response))
  }

  /** A refresh against a server that knows `quotes` caches exactly the
      known quotes of the watched coins and reports no error. */
  lemma RefreshFromServer(s: Session, quotes: map<string, PriceRecord>)
    requires |s.coins| > 0
    ensures WellFormedResponse(s.coins, ResponseJson(quotes))
    ensures var c := RefreshCycle(s, Some(ResponseJson(quotes)));
      && !c.apiError
      && c.session.priceData.Keys == (set x | x in s.coins && x in quotes)
      && forall x :: x in c.session.priceData ==> c.session.priceData[x] == quotes[x]
  {
    GetCurrentPricesOfResponse(s.coins, quotes);
  }

  /** A request that fails leaves the whole session as it was, leaves the
      panel as it was, fires nothing and shows the error. */
  lemma RefreshFailureKeepsSession(s: Session)
    requires |s.coins| > 0
    ensures RefreshCycle(s, None) == Cycle(s, None, [], true)
  {
  }

  /** With an empty watch list no request is sent: the cache is emptied,
      the panel is redrawn empty and no alarm fires, whatever alarms are
      stored. */
  lemma EmptyWatchListRefresh(s: Session, response: Option<Json>)
    requires |s.coins| == 0
    ensures var c := RefreshCycle(s, response);
      && !c.apiError && c.session.priceData == map[] && c.rows == Some([]) && c.fired == []
  {
    AlarmsWithoutQuotesStaySilent(map[], s.alarms);
  }

  // ---------------------------------------------------------------------------
  // Session invariant
  // ---------------------------------------------------------------------------

  /** The watch list has no duplicates and every cached quote is for a
      watched coin. */
  predicate Consistent(s: Session) {
    && NoDuplicates(s.coins)
    && forall c :: c in s.priceData ==> c in s.coins
  }

  lemma InitialConsistent(coins: seq<string>, alarms: seq<Alarm>)
    requires NoDuplicates(coins)
    ensures Consistent(InitialSession(coins, alarms))
  {
  }

  /** A refresh keeps the invariant: the new cache holds only requested,
      hence watched, coins. */
  lemma RefreshKeepsConsistent(s: Session, response: Option<Json>)
    requires Consistent(s)
    requires |s.coins| > 0 && response.Some? ==> WellFormedResponse(s.coins, response.value)
    ensures Consistent(RefreshCycle(s, response).session)
  {
  }

  /** Adding a coin keeps the invariant. */
  lemma AddKeepsConsistent(s: Session, ok: bool, text: string)
    requires Consistent(s)
    ensures Consistent(s.(coins := AddCoin(s.coins, ok, text).coins))
  {
    AddCoinKeepsNoDuplicates(s.coins, ok, text);
  }

  /** Removing a coin keeps the invariant: its quote goes with it. */
  lemma RemoveKeepsConsistent(s: Session, ok: bool, text: string)
    requires Consistent(s)
    ensures Consistent(RemoveCoin(s, ok, text).session)
  {
    var r := RemoveCoin(s, ok, text);
    if r.status == Removed {
      RemoveFirstNoDuplicates(s.coins, Upper(text));
    }
  }

  /** Selecting an interval or a refresh period keeps the invariant. */
  lemma SettingsKeepConsistent(s: Session, text: string)
    requires Consistent(s)
    ensures Consistent(OnChangeIntervalSelected(s, text).0)
    ensures Consistent(SetUpdateInterval(s, text))
  {
  }
}
