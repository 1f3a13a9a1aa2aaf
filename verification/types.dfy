/** The widget's entities: quotes, alarms and the session state that the
    main window keeps in its attributes `coins`, `price_data`, `alarms`,
    `change_interval` and the timer's period. */
module Types {

  /** The period shown in the "Change" combo box. */
  datatype ChangeInterval = Change24h | Change7d

  /** One coin's quote as the decoder builds it: the USD price, the 24-hour
      and 7-day percent changes and the CoinMarketCap slug. */
  datatype PriceRecord = PriceRecord(price: real, change24h: real, change7d: real, slug: string)

  /** The four alarm types of the alarm dialog; any other stored type text is
      kept verbatim in `Unknown`. */
  datatype AlarmKind =
    | PriceAbove
    | PriceBelow
    | PercentIncrease24h
    | PercentDecrease24h
    | Unknown(text: string)

  const PriceAboveText: string := "Price above"
  const PriceBelowText: string := "Price below"
  const PercentIncreaseText: string := "% increase (24h)"
  const PercentDecreaseText: string := "% decrease (24h)"

  predicate IsKnownKindText(s: string) {
    s == PriceAboveText || s == PriceBelowText || s == PercentIncreaseText || s == PercentDecreaseText
  }

  /** A kind value that some type text produces: `Unknown` never wraps one of
      the four recognised texts. */
  predicate ValidKind(k: AlarmKind) {
    k.Unknown? ==> !IsKnownKindText(k.text)
  }

  /** The type text stored in an alarm's `type` field. */
  function KindText(k: AlarmKind): string {
    match k
    case PriceAbove => PriceAboveText
    case PriceBelow => PriceBelowText
    case PercentIncrease24h => PercentIncreaseText
    case PercentDecrease24h => PercentDecreaseText
    case Unknown(t) => t
  }

  /** Reads a stored type text; exactly the four texts the evaluator compares
      against are recognised. */
  function ParseKind(s: string): (k: AlarmKind)
    ensures ValidKind(k)
    ensures k.Unknown? <==> !IsKnownKindText(s)
  {
    if s == PriceAboveText then PriceAbove
    else if s == PriceBelowText then PriceBelow
    else if s == PercentIncreaseText then PercentIncrease24h
    else if s == PercentDecreaseText then PercentDecrease24h
    else Unknown(s)
  }

  /** No type text is lost by reading it. */
  lemma KindTextOfParse(s: string)
    ensures KindText(ParseKind(s)) == s
  {
  }

  /** Every kind that a text can produce is read back from its own text. */
  lemma ParseOfKindText(k: AlarmKind)
    requires ValidKind(k)
    ensures ParseKind(KindText(k)) == k
  {
  }

  /** One stored alarm: the coin it watches, its type, the threshold and an
      optional sound file path (empty when none). */
  datatype Alarm = Alarm(coin: string, kind: AlarmKind, threshold: real, sound: string)

  /** The state the main window holds between events. */
  datatype Session = Session(
    coins: seq<string>,
    priceData: map<string, PriceRecord>,
    alarms: seq<Alarm>,
    changeInterval: ChangeInterval,
    refreshMillis: nat)
}
