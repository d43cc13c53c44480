/** Accumulators of a stats query. */
module StatsValues {
  import opened Filters

  /** One result slot: the running value and the number of rows behind it. */
  datatype Acc = Acc(statsType: StatsType, stats: real, count: nat)

  /** Adds a value that stands for count rows. */
  function ApplyValue(a: Acc, val: real, count: nat): Acc {
    match a.statsType
    case Counter => a.(stats := a.stats + count as real, count := a.count + count)
    case Average => a.(stats := a.stats + val, count := a.count + count)
    case Sum => a.(stats := a.stats + val, count := a.count + count)
    case Min => a.(stats := if a.stats > val || a.stats == -1.0 then val else a.stats, count := a.count + count)
    case Max => a.(stats := if a.stats < val then val else a.stats, count := a.count + count)
    case _ => a
  }

  /** A fresh slot; the minimum starts at a marker value. */
  function Fresh(t: StatsType): Acc {
    Acc(t, if t == Min then -1.0 else 0.0, 0)
  }

  /** A matching counter adds one row whatever the slot's type. */
  function CountOne(a: Acc): Acc {
    a.(stats := a.stats + 1.0, count := a.count + 1)
  }
}
