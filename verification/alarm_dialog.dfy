/** The list editing of the alarm dialog (`AlarmDialog`): "Add/Update"
    replaces the selected alarm or appends a new one, "Remove" deletes the
    selected alarms. The dialog works on a copy that the main window adopts
    only when the dialog is accepted. */
module AlarmDialog {
  import opened Options
  import opened Types

  datatype DialogStatus = EmptyThreshold | InvalidThreshold | Replaced | Appended | NoSelection | Deleted

  datatype AlarmEdit = AlarmEdit(alarms: seq<Alarm>, status: DialogStatus)

  /** `add_or_update_alarm`. `parsed` is what `float(thresholdText)` gives,
      None where it raises; `selected` is the row selected in the list, if
      any. */
  function AddOrUpdateAlarm(
    alarms: seq<Alarm>, coin: string, typeText: string, thresholdText: string,
    parsed: Option<real>, sound: string, selected: Option<nat>): (r: AlarmEdit)
    requires selected.Some? ==> selected.value < |alarms|
    ensures thresholdText == "" ==> r == AlarmEdit(alarms, EmptyThreshold)
    ensures thresholdText != "" && parsed.None? ==> r == AlarmEdit(alarms, InvalidThreshold)
    ensures thresholdText != "" && parsed.Some? ==>
      var entered := Alarm(coin, ParseKind(typeText), parsed.value, sound);
      match selected
      case Some(i) =>
        && r.status == Replaced
        && |r.alarms| == |alarms|
        && r.alarms[i] == entered
        && forall j :: 0 <= j < |alarms| && j != i ==> r.alarms[j] == alarms[j]
      case None =>
        r == AlarmEdit(alarms + [entered], Appended)
  {
    if thresholdText == "" then AlarmEdit(alarms, EmptyThreshold)
    else match parsed
      case None => AlarmEdit(alarms, InvalidThreshold)
      case Some(threshold) =>
        var entered := Alarm(coin, ParseKind(typeText), threshold, sound);
        match selected
        case Some(i) => AlarmEdit(alarms[i := entered], Replaced)
        case None => AlarmEdit(alarms + [entered], Appended)
  }

  /** Updating the same row twice with the same input is the same as once. */
  lemma UpdateIdempotent(
    alarms: seq<Alarm>, coin: string, typeText: string, thresholdText: string,
    parsed: Option<real>, sound: string, i: nat)
    requires i < |alarms|
    ensures var once := AddOrUpdateAlarm(alarms, coin, typeText, thresholdText, parsed, sound, Some(i)).alarms;
      AddOrUpdateAlarm(once, coin, typeText, thresholdText, parsed, sound, Some(i)).alarms == once
  {
  }

  // ---------------------------------------------------------------------------
  // Removing the selected rows
  // ---------------------------------------------------------------------------

  /** The indices in `lo..n` that are not selected, in increasing order. */
  function Survivors(lo: nat, n: nat, selected: set<nat>): (idx: seq<nat>)
    ensures forall j :: 0 <= j < |idx| ==> lo <= idx[j] < n && idx[j] !in selected
    ensures forall j, k :: 0 <= j < k < |idx| ==> idx[j] < idx[k]
    decreases n - lo
  {
    if lo >= n then []
    else
      var rest := Survivors(lo + 1, n, selected);
      if lo in selected then rest else [lo] + rest
  }

  /** No unselected index is lost. */
  lemma {:induction false} SurvivorsComplete(lo: nat, n: nat, selected: set<nat>, i: nat)
    requires lo <= i < n && i !in selected
    ensures i in Survivors(lo, n, selected)
    decreases n - lo
  {
    if lo < i {
      SurvivorsComplete(lo + 1, n, selected, i);
    }
  }

  /** The alarms at the given indices, in that order. */
  function Pick(alarms: seq<Alarm>, idx: seq<nat>): (picked: seq<Alarm>)
    requires forall j :: 0 <= j < |idx| ==> idx[j] < |alarms|
    ensures |picked| == |idx|
    ensures forall j :: 0 <= j < |idx| ==> picked[j] == alarms[idx[j]]
  {
    seq(|idx|, j requires 0 <= j < |idx| => alarms[idx[j]])
  }

  /** `remove_alarm`: with nothing selected the list is kept; otherwise the
      selected rows are deleted from the highest index down, which leaves
      exactly the unselected alarms in their original order. The dialog's
      list allows a single selection; the set generalises it, as the loop
      handles any selection. */
  method RemoveAlarm(alarms: seq<Alarm>, selected: set<nat>) returns (remaining: seq<Alarm>, status: DialogStatus)
    requires forall i :: i in selected ==> i < |alarms|
    ensures selected == {} ==> remaining == alarms && status == NoSelection
    ensures selected != {} ==> status == Deleted
    ensures remaining == Pick(alarms, Survivors(0, |alarms|, selected))
  {
    if selected == {} {
      remaining, status := alarms, NoSelection;
      assert remaining == Pick(alarms, Survivors(0, |alarms|, selected)) by {
        SurvivorsOfNothing(0, |alarms|);
      }
      return;
    }
    remaining := alarms;
    var k := |alarms|;
    while k > 0
      invariant 0 <= k <= |alarms|
      invariant remaining == alarms[..k] + Pick(alarms, Survivors(k, |alarms|, selected))
    {
      k := k - 1;
      RemoveStep(alarms, selected, k, remaining);
      if k in selected {
        remaining := remaining[..k] + remaining[k + 1..];
      }
    }
    status := Deleted;
  }

  /** One iteration of the deletion loop: index `k` is deleted exactly when
      it is selected, and the survivors from `k` on follow the untouched
      prefix. */
  lemma RemoveStep(alarms: seq<Alarm>, selected: set<nat>, k: nat, remaining: seq<Alarm>)
    requires k < |alarms|
    requires remaining == alarms[..k + 1] + Pick(alarms, Survivors(k + 1, |alarms|, selected))
    ensures k < |remaining|
    ensures (if k in selected then remaining[..k] + remaining[k + 1..] else remaining)
         == alarms[..k] + Pick(alarms, Survivors(k, |alarms|, selected))
  {
    var prefix, x := alarms[..k], alarms[k];
    var tail := Pick(alarms, Survivors(k + 1, |alarms|, selected));
    assert alarms[..k + 1] == prefix + [x];
    PickStep(alarms, selected, k);
    DeleteOrKeep(prefix, x, tail, remaining, k !in selected);
  }

  /** Deleting or keeping the element right after an untouched prefix. */
  lemma DeleteOrKeep<T>(prefix: seq<T>, x: T, tail: seq<T>, xs: seq<T>, keep: bool)
    requires xs == prefix + [x] + tail
    ensures |prefix| < |xs|
    ensures (if keep then xs else xs[..|prefix|] + xs[|prefix| + 1..])
         == prefix + ((if keep then [x] else []) + tail)
  {
    if keep {
      assert prefix + [x] + tail == prefix + ([x] + tail);
    } else {
      DeleteAt(prefix, x, tail);
      assert [] + tail == tail;
    }
  }

  /** Unfolds one index of the survivors. */
  lemma PickStep(alarms: seq<Alarm>, selected: set<nat>, k: nat)
    requires k < |alarms|
    ensures Pick(alarms, Survivors(k, |alarms|, selected))
         == (if k in selected then [] else [alarms[k]]) + Pick(alarms, Survivors(k + 1, |alarms|, selected))
  {
  }

  /** Python's `del xs[k]` when `k` is the length of the untouched prefix. */
  lemma DeleteAt<T>(prefix: seq<T>, x: T, tail: seq<T>)
    ensures var xs := prefix + [x] + tail;
      xs[..|prefix|] + xs[|prefix| + 1..] == prefix + tail
  {
    var xs := prefix + [x] + tail;
    assert xs[..|prefix|] == prefix;
    assert xs[|prefix| + 1..] == tail;
  }

  lemma {:induction false} SurvivorsOfNothing(lo: nat, n: nat)
    requires lo <= n
    ensures Survivors(lo, n, {}) == seq(n - lo, j requires 0 <= j < n - lo => lo + j)
    decreases n - lo
  {
    if lo < n {
      SurvivorsOfNothing(lo + 1, n);
    }
  }

  /** Removing the row just appended restores the list. */
  lemma AppendThenRemove(alarms: seq<Alarm>, entered: Alarm)
    ensures Pick(alarms + [entered], Survivors(0, |alarms| + 1, {|alarms|})) == alarms
  {
    var n := |alarms|;
    var idx := Survivors(0, n + 1, {n});
    assert |idx| == n by {
      SurvivorsCount(0, n + 1, n);
    }
    forall j | 0 <= j < n
      ensures idx[j] == j
    {
      SurvivorsAreIdentityBelow(0, n + 1, n, j);
    }
  }

  lemma {:induction false} SurvivorsCount(lo: nat, n: nat, m: nat)
    requires lo <= n && m == n - 1 && lo <= m + 1
    ensures |Survivors(lo, n, {m})| == (if lo <= m then n - 1 - lo else 0)
    decreases n - lo
  {
    if lo < n {
      SurvivorsCount(lo + 1, n, m);
    }
  }

  lemma {:induction false} SurvivorsAreIdentityBelow(lo: nat, n: nat, m: nat, j: nat)
    requires lo <= m && m == n - 1 && j < m - lo
    ensures |Survivors(lo, n, {m})| > j && Survivors(lo, n, {m})[j] == lo + j
    decreases n - lo
  {
    SurvivorsCount(lo, n, m);
    if j > 0 {
      SurvivorsAreIdentityBelow(lo + 1, n, m, j - 1);
    }
  }
}
