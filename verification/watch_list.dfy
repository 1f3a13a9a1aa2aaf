/** The watch-list mutators of the main window, `add_coin` and
    `remove_coin`, after the input dialog has returned `(text, ok)`. Adding
    only touches the list of coins; removing also drops the coin's cached
    quote and every alarm that watches it. */
module WatchList {
  import opened Strings
  import opened Sequences
  import opened Types

  datatype AddStatus = AddCancelled | InvalidLength | DuplicateCoin | Added

  datatype AddResult = AddResult(coins: seq<string>, status: AddStatus)

  /** `add_coin`: the code is upper-cased, must have three to five
      characters and must not be watched yet; it is then appended. */
  function AddCoin(coins: seq<string>, ok: bool, text: string): (r: AddResult)
    ensures r.status == Added <==> ok && text != "" && 3 <= |text| <= 5 && Upper(text) !in coins
    ensures r.status == Added ==> r.coins == coins + [Upper(text)]
    ensures r.status != Added ==> r.coins == coins
    ensures r.status == AddCancelled <==> !ok || text == ""
    ensures r.status == InvalidLength <==> ok && text != "" && !(3 <= |text| <= 5)
    ensures r.status == DuplicateCoin ==> Upper(text) in coins
  {
    if !ok || text == "" then AddResult(coins, AddCancelled)
    else
      var code := Upper(text);
      if !(3 <= |code| <= 5) then AddResult(coins, InvalidLength)
      else if code in coins then AddResult(coins, DuplicateCoin)
      else AddResult(coins + [code], Added)
  }

  /** Adding keeps the watch list free of duplicates. */
  lemma AddCoinKeepsNoDuplicates(coins: seq<string>, ok: bool, text: string)
    requires NoDuplicates(coins)
    ensures NoDuplicates(AddCoin(coins, ok, text).coins)
  {
  }

  /** Adding the same text twice is the same as adding it once; the second
      attempt is rejected as a duplicate. */
  lemma AddCoinIdempotent(coins: seq<string>, text: string)
    requires AddCoin(coins, true, text).status == Added
    ensures AddCoin(AddCoin(coins, true, text).coins, true, text).status == DuplicateCoin
    ensures AddCoin(AddCoin(coins, true, text).coins, true, text).coins == AddCoin(coins, true, text).coins
  {
  }

  datatype RemoveStatus = RemoveCancelled | NotFound | Removed

  datatype RemoveResult = RemoveResult(session: Session, status: RemoveStatus)

  /** The alarms that do not watch `code`, in their original order. */
  function AlarmsNotFor(alarms: seq<Alarm>, code: string): (kept: seq<Alarm>)
    ensures forall a :: a in kept <==> a in alarms && a.coin != code
    ensures forall a :: multiset(kept)[a] == if a.coin != code then multiset(alarms)[a] else 0
    ensures IsSubsequence(kept, alarms)
  {
    if |alarms| == 0 then []
    else
      var init := alarms[..|alarms| - 1];
      var last := alarms[|alarms| - 1];
      var earlier := AlarmsNotFor(init, code);
      assert alarms == init + [last];
      AlarmsNotForCount(earlier, init, last, code);
      if last.coin != code then
        SubsequenceKeep(earlier, init, last);
        earlier + [last]
      else
        SubsequenceSkip(earlier, init, last);
        earlier
  }

  /** One more alarm keeps every count: it is added to the kept alarms
      exactly when it is on another coin. */
  lemma AlarmsNotForCount(earlier: seq<Alarm>, init: seq<Alarm>, last: Alarm, code: string)
    requires forall a :: multiset(earlier)[a] == if a.coin != code then multiset(init)[a] else 0
    ensures var kept := if last.coin != code then earlier + [last] else earlier;
      forall a :: multiset(kept)[a] == if a.coin != code then multiset(init + [last])[a] else 0
  {
    assert multiset(init + [last]) == multiset(init) + multiset{last};
    assert multiset(earlier + [last]) == multiset(earlier) + multiset{last};
  }

  /** `remove_coin`: the upper-cased code must be watched; its first
      occurrence leaves the list, its quote leaves the cache and every alarm
      on it is deleted. */
  function RemoveCoin(s: Session, ok: bool, text: string): (r: RemoveResult)
    ensures r.status == Removed <==> ok && text != "" && Upper(text) in s.coins
    ensures r.status == RemoveCancelled <==> !ok || text == ""
    ensures r.status != Removed ==> r.session == s
    ensures r.status == Removed ==>
      var code := Upper(text);
      var i := IndexOf(s.coins, code);
      && r.session.coins == s.coins[..i] + s.coins[i + 1..]
      && r.session.priceData.Keys == s.priceData.Keys - {code}
      && (forall c :: c in r.session.priceData ==> r.session.priceData[c] == s.priceData[c])
      && (forall a :: a in r.session.alarms <==> a in s.alarms && a.coin != code)
      && (forall a :: multiset(r.session.alarms)[a] == if a.coin != code then multiset(s.alarms)[a] else 0)
      && IsSubsequence(r.session.alarms, s.alarms)
      && r.session.changeInterval == s.changeInterval
      && r.session.refreshMillis == s.refreshMillis
  {
    if !ok || text == "" then RemoveResult(s, RemoveCancelled)
    else
      var code := Upper(text);
      if code !in s.coins then RemoveResult(s, NotFound)
      else
        var s' := s.(
          coins := RemoveFirst(s.coins, code),
          priceData := s.priceData - {code},
          alarms := AlarmsNotFor(s.alarms, code));
        RemoveResult(s', Removed)
  }

  /** On a duplicate-free watch list the removed code is gone altogether,
      the list stays duplicate-free, and no alarm on the code is left. */
  lemma RemoveCoinLeavesNoTrace(s: Session, text: string)
    requires NoDuplicates(s.coins)
    requires RemoveCoin(s, true, text).status == Removed
    ensures var r := RemoveCoin(s, true, text).session;
      && Upper(text) !in r.coins
      && NoDuplicates(r.coins)
      && Upper(text) !in r.priceData
      && forall k :: 0 <= k < |r.alarms| ==> r.alarms[k].coin != Upper(text)
  {
    RemoveFirstNoDuplicates(s.coins, Upper(text));
    var r := RemoveCoin(s, true, text).session;
    assert forall k :: 0 <= k < |r.alarms| ==> r.alarms[k] in r.alarms;
  }

  /** Removing a coin right after adding it restores the watch list. */
  lemma AddThenRemove(s: Session, text: string)
    requires AddCoin(s.coins, true, text).status == Added
    ensures var added := s.(coins := AddCoin(s.coins, true, text).coins);
      RemoveCoin(added, true, text).status == Removed
      && RemoveCoin(added, true, text).session.coins == s.coins
  {
    RemoveFirstAppended(s.coins, Upper(text));
  }

  /** Upper and lower case name the same coin: "sol" is refused once "SOL"
      is watched. */
  lemma AddCoinIgnoresCase(coins: seq<string>, text: string)
    requires Upper(text) in coins && text != ""
    ensures AddCoin(coins, true, text).coins == coins
    ensures AddCoin(coins, true, text).status != Added
  {
  }
}
