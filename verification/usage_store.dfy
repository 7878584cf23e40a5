/** The per-day usage counter and the JSON file that persists it (app.py).
    The host clock is not consulted: every operation takes "today" as a
    parameter. */
module UsageStore {
  import opened Wrappers

  /** A calendar date as the host renders it, `YYYY-MM-DD`. */
  type Date = string

  /** The JSON object held in the usage file: date to number of actions. Keys
      are never pruned. */
  type Store = map<Date, int>

  /** The usage file on disk. It does not exist until the first write, and its
      contents may fail to parse. */
  datatype UsageFile = Absent | Written(data: Store) | Malformed

  /** Reads the usage file. A missing file reads as the empty store; a file
      that does not parse makes the reader raise, shown here as None. */
  function LoadUsage(f: UsageFile): (r: Option<Store>)
    ensures r.None? <==> f.Malformed?
    ensures f.Absent? ==> r == Some(map[])
    ensures f.Written? ==> r == Some(f.data)
  {
    match f
    case Absent => Some(map[])
    case Written(data) => Some(data)
    case Malformed => None
  }

  /** The count recorded for `d`, with 0 for a date the store has never seen. */
  function Lookup(s: Store, d: Date): (n: int)
    ensures d in s ==> n == s[d]
    ensures d !in s ==> n == 0
  {
    if d in s then s[d] else 0
  }

  /** Today's count as the handlers see it; None when the file cannot be read. */
  function GetUsageCount(f: UsageFile, today: Date): (r: Option<int>)
    ensures r.None? <==> f.Malformed?
    ensures f.Absent? ==> r == Some(0)
    ensures f.Written? ==> r == Some(Lookup(f.data, today))
  {
    match LoadUsage(f)
    case None => None
    case Some(s) => Some(Lookup(s, today))
  }

  /** The store after one more action on `d`: the entry is created at 1 when
      absent, raised by one otherwise, and no other date is touched. */
  function Increment(s: Store, d: Date): (r: Store)
    ensures r.Keys == s.Keys + {d}
    ensures r[d] == Lookup(s, d) + 1
    ensures forall e :: e in s && e != d ==> r[e] == s[e]
  {
    s[d := Lookup(s, d) + 1]
  }

  /** The store after an administrative reset of `d`: the entry drops to 0 if
      it exists; a date with no entry is left without one. */
  function ResetDay(s: Store, d: Date): (r: Store)
    ensures r.Keys == s.Keys
    ensures d in s ==> r[d] == 0
    ensures d !in s ==> r == s
    ensures forall e :: e in s && e != d ==> r[e] == s[e]
  {
    if d in s then s[d := 0] else s
  }

  /** `f` and `g` read alike (both raise, or both parse) and agree on every
      date other than `d`, both on which dates have an entry and on the counts. */
  ghost predicate AgreeExcept(f: UsageFile, g: UsageFile, d: Date)
  {
    match (LoadUsage(f), LoadUsage(g))
    case (None, None) => true
    case (Some(s), Some(t)) =>
      forall e :: e != d ==> (e in s <==> e in t) && (e in s ==> s[e] == t[e])
    case _ => false
  }

  /** `g` is `f` with one more action recorded on `d` and nothing else changed. */
  ghost predicate IncrementedOn(f: UsageFile, g: UsageFile, d: Date)
  {
    match (GetUsageCount(f, d), GetUsageCount(g, d))
    case (Some(before), Some(after)) => after == before + 1 && AgreeExcept(f, g, d)
    case _ => false
  }

  /** Records one action for `today`: reads the whole file, raises today's
      entry and writes the whole store back. None is the reader raising, in
      which case nothing is written. */
  function UpdateUsageCount(f: UsageFile, today: Date): (r: Option<UsageFile>)
    ensures r.None? <==> f.Malformed?
    ensures r.Some? ==> r.value.Written? && IncrementedOn(f, r.value, today)
  {
    match LoadUsage(f)
    case None => None
    case Some(s) => Some(Written(Increment(s, today)))
  }

  /** Zeroes today's entry. The file is rewritten only when today already has
      an entry; otherwise it is left exactly as it was, so a reset before the
      first action of the day creates nothing. None is the reader raising. */
  function ResetUsage(f: UsageFile, today: Date): (r: Option<UsageFile>)
    ensures r.None? <==> f.Malformed?
    ensures r.Some? && today !in LoadUsage(f).value ==> r.value == f
    ensures r.Some? && today in LoadUsage(f).value ==>
              GetUsageCount(r.value, today) == Some(0) && today in LoadUsage(r.value).value
    ensures r.Some? ==> AgreeExcept(f, r.value, today)
  {
    match LoadUsage(f)
    case None => None
    case Some(s) => if today in s then Some(Written(ResetDay(s, today))) else Some(f)
  }

  /** Increments on one date accumulate: `n` actions on `d` raise its count by
      exactly `n` and leave every other date as it was. */
  function IncrementTimes(s: Store, d: Date, n: nat): (r: Store)
    ensures Lookup(r, d) == Lookup(s, d) + n
    ensures forall e :: e != d ==> (e in r <==> e in s) && Lookup(r, e) == Lookup(s, e)
    decreases n
  {
    if n == 0 then s else Increment(IncrementTimes(s, d, n - 1), d)
  }
}
