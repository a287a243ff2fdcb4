/** One native daily-history read: bars and independent suspension statuses by asset and day. */
module DailyHistory {
  import opened Outcomes
  import Remarks

  datatype Status = Status(asset: string, day: int, suspendFlag: Option<int>)

  datatype Bar = Bar(
    asset: string, day: int, price: string, open: string, high: string, low: string, volume: Option<string>, amount: Option<string>)

  datatype History = History(bars: seq<Bar>, statuses: seq<Status>)

  /** A native suspension flag: exact integers are read, booleans and everything else are unknown. */
  datatype NativeFlag = Missing | Boolean(b: bool) | Integral(i: int) | FiniteReal(x: real) | OtherFlag

  /** `_normalize_suspend_flag`. */
  function NormalizedFlag(value: NativeFlag): (flag: Option<int>)
    ensures flag.Some? ==> -1 <= flag.value <= 1
  {
    var whole := match value
      case Integral(i) => Some(i)
      case FiniteReal(x) => if x.Floor as real == x then Some(x.Floor) else None
      case _ => None;
    if whole.Some? && -1 <= whole.value <= 1 then whole else None
  }

  /** A row of a source frame; `day` is its parsed index, and each number is its wire text where it has one. */
  datatype SourceRow = SourceRow(
    day: Option<int>, flag: NativeFlag,
    open: Option<string>, high: Option<string>, low: Option<string>, close: Option<string>,
    volume: Option<string>, amount: Option<string>)

  /** What one source row says of its asset and day. */
  datatype Observation = Observation(bar: Option<Bar>, status: Status)

  predicate HasPrices(row: SourceRow) {
    row.open.Some? && row.high.Some? && row.low.Some? && row.close.Some?
  }

  function Observed(asset: string, row: SourceRow): Observation
    requires row.day.Some?
  {
    var bar := if HasPrices(row)
      then Some(Bar(asset, row.day.value, row.close.value, row.open.value, row.high.value, row.low.value, row.volume, row.amount))
      else None;
    Observation(bar, Status(asset, row.day.value, NormalizedFlag(row.flag)))
  }

  predicate SameKey(a: Observation, b: Observation) {
    a.status.asset == b.status.asset && a.status.day == b.status.day
  }

  // ---------------------------------------------------------------- the request

  datatype Request = Request(assets: seq<string>, startDay: int, endDay: int, today: int)

  const MAX_SPAN := 31
  const MAX_ASSETS := 200

  /** `_completed_history_range` on parsed dates, `today` being the China-local date. */
  predicate IsCompletedRange(request: Request) {
    && request.startDay <= request.endDay && request.endDay - request.startDay <= MAX_SPAN
    && request.endDay < request.today
  }

  predicate IsExplicitCode(asset: string) {
    asset != "" && !Remarks.IsSpace(asset[0]) && !Remarks.IsSpace(asset[|asset| - 1])
  }

  predicate IsValidRequest(request: Request) {
    && IsCompletedRange(request)
    && 1 <= |request.assets| <= MAX_ASSETS
    && (forall asset <- request.assets :: IsExplicitCode(asset))
    && (forall i, j :: 0 <= i < j < |request.assets| ==> request.assets[i] != request.assets[j])
  }

  // ---------------------------------------------------------------- the observations of a sequence of rows

  datatype Entry = Entry(asset: string, row: SourceRow)

  predicate InRange(entry: Entry, request: Request) {
    entry.row.day.Some? && request.startDay <= entry.row.day.value <= request.endDay
  }

  /** The observation with the same key, if there is one. */
  function Find(seen: seq<Observation>, current: Observation): (r: Option<Observation>)
    ensures r.Some? ==> r.value in seen && SameKey(r.value, current)
    ensures r.None? ==> forall o <- seen :: !SameKey(o, current)
  {
    if seen == [] then None
    else if SameKey(seen[|seen| - 1], current) then Some(seen[|seen| - 1])
    else Find(seen[..|seen| - 1], current)
  }

  /** One row after those already seen: a new key is appended, an equal duplicate is skipped, a different one is a conflict. */
  function Observe(seen: seq<Observation>, entry: Entry, request: Request): Result<seq<Observation>> {
    if !InRange(entry, request) then Err("OUT_OF_RANGE")
    else
      var current := Observed(entry.asset, entry.row);
      match Find(seen, current)
      case None => Ok(seen + [current])
      case Some(previous) => if previous == current then Ok(seen) else Err("CONFLICT")
  }

  function ObserveAll(seen: seq<Observation>, entries: seq<Entry>, request: Request): Result<seq<Observation>>
    decreases |entries|
  {
    if entries == [] then Ok(seen)
    else
      var next :- Observe(seen, entries[0], request);
      ObserveAll(next, entries[1..], request)
  }

  /** All rows, asset by asset; an asset without a frame has none. */
  function Entries(assets: seq<string>, frames: map<string, seq<SourceRow>>): seq<Entry> {
    if assets == [] then [] else EntriesOf(assets[0], frames) + Entries(assets[1..], frames)
  }

  function EntriesOf(asset: string, frames: map<string, seq<SourceRow>>): seq<Entry> {
    if asset in frames then seq(|frames[asset]|, i requires 0 <= i < |frames[asset]| => Entry(asset, frames[asset][i])) else []
  }

  function Bars(seen: seq<Observation>): seq<Bar> {
    if seen == [] then []
    else Bars(seen[..|seen| - 1]) + (if seen[|seen| - 1].bar.Some? then [seen[|seen| - 1].bar.value] else [])
  }

  function Statuses(seen: seq<Observation>): (statuses: seq<Status>)
    ensures |statuses| == |seen|
    ensures forall i :: 0 <= i < |seen| ==> statuses[i] == seen[i].status
  {
    seq(|seen|, i requires 0 <= i < |seen| => seen[i].status)
  }

  // ---------------------------------------------------------------- the read

  function HistoryOf(seen: seq<Observation>): History {
    History(Bars(seen), Statuses(seen))
  }

  /** `daily_history` after the SDK's answer. */
  method ReadDailyHistory(request: Request, frames: map<string, seq<SourceRow>>) returns (r: Result<History>)
    ensures r.Ok? <==> IsValidRequest(request) && ObserveAll([], Entries(request.assets, frames), request).Ok?
    ensures r.Ok? ==> r.value == HistoryOf(ObserveAll([], Entries(request.assets, frames), request).value)
  {
    hide IsValidRequest, Observe, EntriesOf, Bars, Statuses, ObserveAll;
    if !IsValidRequest(request) {
      return Err("INVALID_REQUEST");
    }
    ghost var all := ObserveAll([], Entries(request.assets, frames), request);
    var seen: seq<Observation> := [];
    var i := 0;
    while i < |request.assets|
      invariant i <= |request.assets|
      invariant ObserveAll(seen, Entries(request.assets[i..], frames), request) == all
    {
      assert request.assets[i..][1..] == request.assets[i + 1..];
      var next := ObserveFrame(seen, request.assets[i], frames, request, Entries(request.assets[i + 1..], frames));
      if next.Err? {
        return Err(next.error);
      }
      seen := next.value;
      i := i + 1;
    }
    ObserveNothing(seen, request);
    r := Ok(HistoryOf(seen));
  }

  /** The rows of one asset; `rest` is what the read has still to come to after them. */
  method ObserveFrame(start: seq<Observation>, asset: string, frames: map<string, seq<SourceRow>>, request: Request, ghost rest: seq<Entry>)
    returns (r: Result<seq<Observation>>)
    ensures r.Ok? ==> ObserveAll(start, EntriesOf(asset, frames) + rest, request) == ObserveAll(r.value, rest, request)
    ensures r.Err? ==> ObserveAll(start, EntriesOf(asset, frames) + rest, request).Err?
  {
    hide Observe, ObserveAll;
    if asset !in frames {
      assert [] + rest == rest;
      return Ok(start);
    }
    var rows, seen, j := frames[asset], start, 0;
    ghost var entries := EntriesOf(asset, frames);
    assert entries[0..] == entries;
    while j < |rows|
      invariant j <= |rows|
      invariant ObserveAll(start, entries + rest, request) == ObserveAll(seen, entries[j..] + rest, request)
    {
      ObserveNext(seen, entries, rest, j, request);
      var next := Observe(seen, Entry(asset, rows[j]), request);
      if next.Err? {
        return Err(next.error);
      }
      seen := next.value;
      j := j + 1;
    }
    assert entries[j..] + rest == rest;
    r := Ok(seen);
  }

  lemma ObserveNothing(seen: seq<Observation>, request: Request)
    ensures ObserveAll(seen, [], request) == Ok(seen)
  {
  }

  lemma ObserveNext(seen: seq<Observation>, entries: seq<Entry>, rest: seq<Entry>, j: nat, request: Request)
    requires j < |entries|
    ensures var next := Observe(seen, entries[j], request);
            if next.Err? then ObserveAll(seen, entries[j..] + rest, request).Err?
            else ObserveAll(seen, entries[j..] + rest, request) == ObserveAll(next.value, entries[j + 1..] + rest, request)
  {
    hide Observe;
    var all := entries[j..] + rest;
    assert all[0] == entries[j] && all[1..] == entries[j + 1..] + rest;
  }

  // ---------------------------------------------------------------- what the observations are

  /** No two observations of one key. */
  predicate HasDistinctKeys(seen: seq<Observation>) {
    forall i, j :: 0 <= i < j < |seen| ==> !SameKey(seen[i], seen[j])
  }

  /** The entry is in range and its observation is among those seen. */
  predicate IsSeen(entry: Entry, seen: seq<Observation>, request: Request) {
    InRange(entry, request) && Observed(entry.asset, entry.row) in seen
  }

  /** Two rows of one asset and day whose observations differ. */
  predicate Contradict(a: Entry, b: Entry) {
    && a.row.day.Some? && b.row.day.Some? && SameKey(Observed(a.asset, a.row), Observed(b.asset, b.row))
    && Observed(a.asset, a.row) != Observed(b.asset, b.row)
  }

  /** Every row is in range, and no row contradicts another or what was seen before. */
  ghost predicate AreConsistent(seen: seq<Observation>, entries: seq<Entry>, request: Request) {
    && (forall e <- entries :: InRange(e, request))
    && (forall a <- entries, b <- entries :: !Contradict(a, b))
    && (forall e <- entries, o <- seen :: InRange(e, request) && SameKey(o, Observed(e.asset, e.row)) ==> o == Observed(e.asset, e.row))
  }

  lemma ObserveOne(seen: seq<Observation>, e: Entry, request: Request)
    requires HasDistinctKeys(seen)
    ensures Observe(seen, e, request).Ok? <==>
              InRange(e, request) && forall o <- seen :: SameKey(o, Observed(e.asset, e.row)) ==> o == Observed(e.asset, e.row)
    ensures Observe(seen, e, request).Ok? ==>
              var next := Observe(seen, e, request).value;
              && seen <= next && HasDistinctKeys(next) && IsSeen(e, next, request)
              && forall o <- next :: o in seen || o == Observed(e.asset, e.row)
  {
    hide Observed;
    if InRange(e, request) {
      var current := Observed(e.asset, e.row);
      var previous := Find(seen, current);
      if previous.Some? {
        forall o | o in seen && SameKey(o, current)
          ensures o == previous.value
        {
          var i, j :| 0 <= i < |seen| && 0 <= j < |seen| && seen[i] == o && seen[j] == previous.value;
        }
      }
    }
  }

  lemma ConsistentStep(seen: seq<Observation>, entries: seq<Entry>, request: Request)
    requires HasDistinctKeys(seen) && entries != []
    ensures AreConsistent(seen, entries, request) <==>
              Observe(seen, entries[0], request).Ok? && AreConsistent(Observe(seen, entries[0], request).value, entries[1..], request)
  {
    var first, rest := entries[0], entries[1..];
    ObserveOne(seen, first, request);
    hide Observe, Observed, HasDistinctKeys;
    assert forall e :: e in entries <==> e == first || e in rest;
    if Observe(seen, first, request).Ok? {
      var next := Observe(seen, first, request).value;
      assert forall o <- seen :: o in next;
      if AreConsistent(next, rest, request) {
        forall e | e in rest
          ensures !Contradict(first, e) && !Contradict(e, first)
        {
          assert IsSeen(first, next, request);
        }
      }
      if AreConsistent(seen, entries, request) {
        forall e, o | e in rest && o in next && SameKey(o, Observed(e.asset, e.row))
          ensures o == Observed(e.asset, e.row)
        {
          assert o in seen || !Contradict(first, e);
        }
      }
    }
  }

  /** The read accepts exactly the consistent rows. */
  lemma {:induction false} AcceptsConsistentRows(seen: seq<Observation>, entries: seq<Entry>, request: Request)
    requires HasDistinctKeys(seen)
    ensures ObserveAll(seen, entries, request).Ok? <==> AreConsistent(seen, entries, request)
    decreases |entries|
  {
    if entries != [] {
      ObserveOne(seen, entries[0], request);
      ConsistentStep(seen, entries, request);
      hide Observe, Observed, HasDistinctKeys, AreConsistent;
      var next := Observe(seen, entries[0], request);
      if next.Ok? {
        AcceptsConsistentRows(next.value, entries[1..], request);
      }
    }
  }

  /** Of accepted rows every one is represented, nothing else is, and each asset and day has one observation. */
  lemma {:induction false} ObservationsAreExact(seen: seq<Observation>, entries: seq<Entry>, request: Request)
    requires HasDistinctKeys(seen) && ObserveAll(seen, entries, request).Ok?
    ensures var all := ObserveAll(seen, entries, request).value;
            && seen <= all && HasDistinctKeys(all)
            && (forall e <- entries :: IsSeen(e, all, request))
            && (forall o <- all :: o in seen || exists e <- entries :: o == Observed(e.asset, e.row))
    decreases |entries|
  {
    if entries != [] {
      ObserveOne(seen, entries[0], request);
      hide Observe, Observed, HasDistinctKeys;
      assert forall e :: e in entries <==> e == entries[0] || e in entries[1..];
      ObservationsAreExact(Observe(seen, entries[0], request).value, entries[1..], request);
    }
  }

  // ---------------------------------------------------------------- the two result lists

  lemma {:induction false} BarsAre(seen: seq<Observation>)
    ensures |Bars(seen)| <= |seen|
    ensures forall bar :: bar in Bars(seen) <==> exists o <- seen :: o.bar == Some(bar)
  {
    if seen != [] {
      var front, last := seen[..|seen| - 1], seen[|seen| - 1];
      BarsAre(front);
      assert forall o :: o in seen <==> o in front || o == last;
    }
  }

  lemma {:induction false} BarsDiffer(seen: seq<Observation>, i: nat, j: nat)
    requires HasDistinctKeys(seen) && BarsHaveOwnKeys(seen) && i < j < |Bars(seen)|
    ensures Bars(seen)[i].asset != Bars(seen)[j].asset || Bars(seen)[i].day != Bars(seen)[j].day
  {
    var front, last := seen[..|seen| - 1], seen[|seen| - 1];
    if j < |Bars(front)| {
      BarsDiffer(front, i, j);
    } else {
      BarsAre(front);
      assert Bars(front)[i] in Bars(front);
    }
  }

  /** Each bar carries the key of its own status. */
  predicate BarsHaveOwnKeys(seen: seq<Observation>) {
    forall o <- seen :: o.bar.Some? ==> o.bar.value.asset == o.status.asset && o.bar.value.day == o.status.day
  }

  predicate IsStatusOf(status: Status, asset: string, day: int) {
    status.asset == asset && status.day == day
  }

  /** The two lists are those of the observations of the rows. */
  ghost predicate ListsObservations(h: History, entries: seq<Entry>) {
    && (forall i, j :: 0 <= i < j < |h.statuses| ==> !IsStatusOf(h.statuses[j], h.statuses[i].asset, h.statuses[i].day))
    && (forall i, j :: 0 <= i < j < |h.bars| ==> h.bars[i].asset != h.bars[j].asset || h.bars[i].day != h.bars[j].day)
    && (forall bar <- h.bars :: exists status <- h.statuses :: IsStatusOf(status, bar.asset, bar.day))
    && (forall e <- entries :: e.row.day.Some? && Observed(e.asset, e.row).status in h.statuses)
    && (forall e <- entries :: e.row.day.Some? && HasPrices(e.row) ==> Observed(e.asset, e.row).bar.value in h.bars)
    && (forall status <- h.statuses :: exists e <- entries :: e.row.day.Some? && Observed(e.asset, e.row).status == status)
    && (forall bar <- h.bars :: exists e <- entries :: e.row.day.Some? && Observed(e.asset, e.row).bar == Some(bar))
  }

  lemma ObservationsAreFaithful(seen: seq<Observation>, entries: seq<Entry>)
    requires HasDistinctKeys(seen) && BarsHaveOwnKeys(seen)
    requires forall e <- entries :: e.row.day.Some? && Observed(e.asset, e.row) in seen
    requires forall o <- seen :: exists e <- entries :: o == Observed(e.asset, e.row)
    ensures ListsObservations(HistoryOf(seen), entries)
  {
    BarsAre(seen);
    StatusesAre(seen);
    var h := HistoryOf(seen);
    forall i, j | 0 <= i < j < |h.bars|
      ensures h.bars[i].asset != h.bars[j].asset || h.bars[i].day != h.bars[j].day
    {
      BarsDiffer(seen, i, j);
    }
    hide Bars, Statuses;
    forall bar | bar in h.bars
      ensures exists status <- h.statuses :: IsStatusOf(status, bar.asset, bar.day)
      ensures exists e <- entries :: e.row.day.Some? && Observed(e.asset, e.row).bar == Some(bar)
    {
      var o :| o in seen && o.bar == Some(bar);
      assert o.status in h.statuses && IsStatusOf(o.status, bar.asset, bar.day);
    }
    forall status | status in h.statuses
      ensures exists e <- entries :: e.row.day.Some? && Observed(e.asset, e.row).status == status
    {
      var o :| o in seen && o.status == status;
    }
  }

  lemma StatusesAre(seen: seq<Observation>)
    ensures forall status :: status in Statuses(seen) <==> exists o <- seen :: o.status == status
  {
    forall o | o in seen
      ensures o.status in Statuses(seen)
    {
      var i :| 0 <= i < |seen| && seen[i] == o;
      assert Statuses(seen)[i] == o.status;
    }
    forall status | status in Statuses(seen)
      ensures exists o <- seen :: o.status == status
    {
      var i :| 0 <= i < |Statuses(seen)| && Statuses(seen)[i] == status;
      assert seen[i] in seen;
    }
  }

  // ---------------------------------------------------------------- the bound

  const MAX_OBSERVATIONS := (MAX_SPAN + 1) * MAX_ASSETS

  lemma {:induction false} DistinctNumbersFit(numbers: seq<int>, n: nat)
    requires forall i :: 0 <= i < |numbers| ==> 0 <= numbers[i] < n
    requires forall i, j :: 0 <= i < j < |numbers| ==> numbers[i] != numbers[j]
    ensures |numbers| <= n
  {
    if numbers != [] {
      assert numbers[0] < n;
      if n - 1 in numbers {
        var k :| 0 <= k < |numbers| && numbers[k] == n - 1;
        DistinctNumbersFit(numbers[..k] + numbers[k + 1..], n - 1);
      } else {
        forall i | 0 <= i < |numbers|
          ensures numbers[i] < n - 1
        {
          assert numbers[i] in numbers;
        }
        DistinctNumbersFit(numbers, n - 1);
      }
    }
  }

  function IndexOf(assets: seq<string>, asset: string): (i: nat)
    requires asset in assets
    ensures i < |assets| && assets[i] == asset
  {
    if assets[0] == asset then 0 else 1 + IndexOf(assets[1..], asset)
  }

  /** The place of an observation among the at most 200 assets times 32 days. */
  function Place(o: Observation, request: Request): int
    requires o.status.asset in request.assets
  {
    IndexOf(request.assets, o.status.asset) * (MAX_SPAN + 1) + (o.status.day - request.startDay)
  }

  predicate IsInGrid(o: Observation, request: Request) {
    o.status.asset in request.assets && request.startDay <= o.status.day <= request.endDay
  }

  lemma {:induction false} PlaceFits(o: Observation, request: Request)
    requires IsValidRequest(request) && IsInGrid(o, request)
    ensures 0 <= Place(o, request) < MAX_OBSERVATIONS
  {
    hide IsExplicitCode;
  }

  lemma {:induction false} PlacesDiffer(a: Observation, b: Observation, request: Request)
    requires IsCompletedRange(request) && IsInGrid(a, request) && IsInGrid(b, request) && !SameKey(a, b)
    ensures Place(a, request) != Place(b, request)
  {
  }

  lemma ObservationsFit(seen: seq<Observation>, request: Request)
    requires IsValidRequest(request) && HasDistinctKeys(seen) && forall o <- seen :: IsInGrid(o, request)
    ensures |seen| <= MAX_OBSERVATIONS
  {
    hide IsExplicitCode, Place, SameKey;
    var places := seq(|seen|, i requires 0 <= i < |seen| => (assert seen[i] in seen; Place(seen[i], request)));
    forall i | 0 <= i < |places|
      ensures 0 <= places[i] < MAX_OBSERVATIONS
    {
      assert seen[i] in seen;
      PlaceFits(seen[i], request);
    }
    forall i, j | 0 <= i < j < |places|
      ensures places[i] != places[j]
    {
      assert seen[i] in seen && seen[j] in seen && !SameKey(seen[i], seen[j]);
      PlacesDiffer(seen[i], seen[j], request);
    }
    DistinctNumbersFit(places, MAX_OBSERVATIONS);
  }

  lemma {:induction false} EntriesAreAsked(assets: seq<string>, frames: map<string, seq<SourceRow>>)
    ensures forall e :: e in Entries(assets, frames) <==> e.asset in assets && e.asset in frames && e.row in frames[e.asset]
  {
    if assets != [] {
      EntriesAreAsked(assets[1..], frames);
      FrameEntries(assets[0], frames);
      hide EntriesOf;
      assert forall a :: a in assets <==> a == assets[0] || a in assets[1..];
    }
  }

  lemma FrameEntries(asset: string, frames: map<string, seq<SourceRow>>)
    ensures forall e :: e in EntriesOf(asset, frames) <==> e.asset == asset && asset in frames && e.row in frames[asset]
  {
    if asset in frames {
      forall row | row in frames[asset]
        ensures Entry(asset, row) in EntriesOf(asset, frames)
      {
        var i :| 0 <= i < |frames[asset]| && frames[asset][i] == row;
        assert EntriesOf(asset, frames)[i] == Entry(asset, row);
      }
    }
  }

  // ---------------------------------------------------------------- the order

  lemma {:induction false} ObserveAllInTwo(seen: seq<Observation>, a: seq<Entry>, b: seq<Entry>, request: Request)
    requires ObserveAll(seen, a + b, request).Ok?
    ensures ObserveAll(seen, a, request).Ok?
    ensures ObserveAll(ObserveAll(seen, a, request).value, b, request) == ObserveAll(seen, a + b, request)
    decreases |a|
  {
    hide Observe;
    if a == [] {
      assert a + b == b;
    } else {
      assert (a + b)[0] == a[0] && (a + b)[1..] == a[1..] + b;
      ObserveAllInTwo(Observe(seen, a[0], request).value, a[1..], b, request);
    }
  }

  lemma {:induction false} ObservingOnlyAdds(seen: seq<Observation>, entries: seq<Entry>, request: Request)
    requires ObserveAll(seen, entries, request).Ok?
    ensures seen <= ObserveAll(seen, entries, request).value
    decreases |entries|
  {
    hide Observed, InRange;
    if entries != [] {
      ObservingOnlyAdds(Observe(seen, entries[0], request).value, entries[1..], request);
    }
  }

  lemma {:induction false} BarsOnlyGrow(seen: seq<Observation>, more: seq<Observation>)
    requires seen <= more
    ensures Bars(seen) <= Bars(more)
  {
    if |seen| < |more| {
      BarsOnlyGrow(seen, more[..|more| - 1]);
    } else {
      assert seen == more;
    }
  }

  /** Bars and statuses come in the order in which their rows are read first: what the first k rows give is the first part of what all rows give. */
  lemma {:induction false} EarlierRowsComeFirst(entries: seq<Entry>, k: nat, request: Request)
    requires k <= |entries| && ObserveAll([], entries, request).Ok?
    ensures ObserveAll([], entries[..k], request).Ok?
    ensures var first, all := HistoryOf(ObserveAll([], entries[..k], request).value), HistoryOf(ObserveAll([], entries, request).value);
            first.bars <= all.bars && first.statuses <= all.statuses
  {
    assert entries[..k] + entries[k..] == entries;
    ObserveAllInTwo([], entries[..k], entries[k..], request);
    var seen, more := ObserveAll([], entries[..k], request).value, ObserveAll([], entries, request).value;
    ObservingOnlyAdds(seen, entries[k..], request);
    BarsOnlyGrow(seen, more);
    hide Bars, ObserveAll;
  }

  // ---------------------------------------------------------------- in the fields of the rows

  /** The row is one that the source gave for the asset, and the asset was asked for. */
  predicate IsRowOf(request: Request, frames: map<string, seq<SourceRow>>, asset: string, row: SourceRow) {
    asset in request.assets && asset in frames && row in frames[asset]
  }

  /** The native flag is the whole number -1, 0 or 1, and no boolean. */
  predicate FlagIs(native: NativeFlag, n: int) {
    -1 <= n <= 1 && (native == Integral(n) || native == FiniteReal(n as real))
  }

  predicate SaysFlag(flag: Option<int>, native: NativeFlag) {
    match flag
    case Some(n) => FlagIs(native, n)
    case None => !FlagIs(native, -1) && !FlagIs(native, 0) && !FlagIs(native, 1)
  }

  /** The bar has the day of the row, its close as the price, and its other numbers as they are. */
  predicate SaysBar(bar: Bar, row: SourceRow) {
    && row.day == Some(bar.day) && row.close == Some(bar.price)
    && row.open == Some(bar.open) && row.high == Some(bar.high) && row.low == Some(bar.low)
    && row.volume == bar.volume && row.amount == bar.amount
  }

  predicate SaysStatus(status: Status, row: SourceRow) {
    row.day == Some(status.day) && SaysFlag(status.suspendFlag, row.flag)
  }

  predicate HasAllPrices(row: SourceRow) {
    row.open != None && row.high != None && row.low != None && row.close != None
  }

  /** What two rows of one asset may not do: be of one day and differ in the flag, in having prices, or, with prices, in any number. */
  predicate Conflict(a: SourceRow, b: SourceRow) {
    && a.day.Some? && a.day == b.day
    && (|| FlagIs(a.flag, -1) != FlagIs(b.flag, -1) || FlagIs(a.flag, 0) != FlagIs(b.flag, 0) || FlagIs(a.flag, 1) != FlagIs(b.flag, 1)
        || HasAllPrices(a) != HasAllPrices(b)
        || (HasAllPrices(a) && (a.open, a.high, a.low, a.close, a.volume, a.amount) != (b.open, b.high, b.low, b.close, b.volume, b.amount)))
  }

  lemma {:induction false} FlagIsSaid(native: NativeFlag)
    ensures SaysFlag(NormalizedFlag(native), native)
    ensures forall flag :: SaysFlag(flag, native) ==> flag == NormalizedFlag(native)
  {
    forall flag | SaysFlag(flag, native)
      ensures flag == NormalizedFlag(native)
    {
      match native {
        case FiniteReal(x) => assert x == 1.0 || x == 0.0 || x == -1.0 || NormalizedFlag(native) == None;
        case _ =>
      }
    }
  }

  /** The observation of a row says what the row says, and nothing else does. */
  lemma {:induction false} ObservedSays(asset: string, row: SourceRow)
    requires row.day.Some?
    ensures var o := Observed(asset, row);
            && o.status.asset == asset && SaysStatus(o.status, row)
            && (o.bar.Some? <==> HasAllPrices(row)) && (HasPrices(row) <==> HasAllPrices(row))
            && (o.bar.Some? ==> o.bar.value.asset == asset && SaysBar(o.bar.value, row))
    ensures forall status: Status :: status.asset == asset && SaysStatus(status, row) ==> status == Observed(asset, row).status
    ensures forall bar: Bar :: bar.asset == asset && SaysBar(bar, row) ==> Observed(asset, row).bar == Some(bar)
  {
    FlagIsSaid(row.flag);
    hide SaysFlag, NormalizedFlag;
  }

  lemma {:induction false} SameFlags(a: NativeFlag, b: NativeFlag)
    ensures NormalizedFlag(a) == NormalizedFlag(b) <==>
              FlagIs(a, -1) == FlagIs(b, -1) && FlagIs(a, 0) == FlagIs(b, 0) && FlagIs(a, 1) == FlagIs(b, 1)
  {
    FlagIsSaid(a);
    FlagIsSaid(b);
    hide NormalizedFlag;
  }

  lemma {:induction false} ConflictIsContradiction(asset: string, a: SourceRow, b: SourceRow)
    ensures Conflict(a, b) <==> Contradict(Entry(asset, a), Entry(asset, b))
  {
    FlagIsSaid(a.flag);
    FlagIsSaid(b.flag);
    SameFlags(a.flag, b.flag);
    hide SaysFlag, NormalizedFlag, FlagIs;
  }

  /** What the read promises: one status for each asset and day, and at most one bar, each says what some row of its asset says, and every row is said by a status, and by a bar exactly where it has all four prices. */
  ghost predicate IsFaithful(h: History, request: Request, frames: map<string, seq<SourceRow>>) {
    && (forall i, j :: 0 <= i < j < |h.statuses| ==> h.statuses[i].asset != h.statuses[j].asset || h.statuses[i].day != h.statuses[j].day)
    && (forall i, j :: 0 <= i < j < |h.bars| ==> h.bars[i].asset != h.bars[j].asset || h.bars[i].day != h.bars[j].day)
    && (forall status <- h.statuses :: exists row: SourceRow :: IsRowOf(request, frames, status.asset, row) && SaysStatus(status, row))
    && (forall bar <- h.bars :: exists row: SourceRow :: IsRowOf(request, frames, bar.asset, row) && SaysBar(bar, row))
    && (forall asset: string, row: SourceRow | IsRowOf(request, frames, asset, row) ::
          && (exists status <- h.statuses :: status.asset == asset && SaysStatus(status, row))
          && ((exists bar <- h.bars :: bar.asset == asset && SaysBar(bar, row)) <==> HasAllPrices(row)))
    && (forall bar <- h.bars :: exists status <- h.statuses :: status.asset == bar.asset && status.day == bar.day)
    && (forall status <- h.statuses :: request.startDay <= status.day <= request.endDay)
  }

  lemma {:induction false} RowsAreEntries(request: Request, frames: map<string, seq<SourceRow>>, asset: string, row: SourceRow)
    ensures Entry(asset, row) in Entries(request.assets, frames) <==> IsRowOf(request, frames, asset, row)
  {
    EntriesAreAsked(request.assets, frames);
    hide Entries;
  }

  lemma {:induction false} StatusIsSaid(h: History, request: Request, frames: map<string, seq<SourceRow>>, status: Status)
    requires ListsObservations(h, Entries(request.assets, frames)) && status in h.statuses
    requires forall e <- Entries(request.assets, frames) :: InRange(e, request)
    ensures exists row: SourceRow :: IsRowOf(request, frames, status.asset, row) && SaysStatus(status, row)
    ensures request.startDay <= status.day <= request.endDay
  {
    var e: Entry :| e in Entries(request.assets, frames) && e.row.day.Some? && Observed(e.asset, e.row).status == status;
    hide Entries, Observed, SaysBar, SaysStatus, HasPrices, HasAllPrices, ListsObservations, IsRowOf;
    ObservedSays(e.asset, e.row);
    RowsAreEntries(request, frames, e.asset, e.row);
    assert e == Entry(e.asset, e.row) && IsRowOf(request, frames, status.asset, e.row);
    StatusDay(status, e.row);
  }

  lemma {:induction false} BarIsSaid(h: History, request: Request, frames: map<string, seq<SourceRow>>, bar: Bar)
    requires ListsObservations(h, Entries(request.assets, frames)) && bar in h.bars
    ensures exists row: SourceRow :: IsRowOf(request, frames, bar.asset, row) && SaysBar(bar, row)
    ensures exists status <- h.statuses :: status.asset == bar.asset && status.day == bar.day
  {
    var e: Entry :| e in Entries(request.assets, frames) && e.row.day.Some? && Observed(e.asset, e.row).bar == Some(bar);
    var status: Status :| status in h.statuses && IsStatusOf(status, bar.asset, bar.day);
    hide Entries, Observed, SaysBar, SaysStatus, HasPrices, HasAllPrices, ListsObservations, IsRowOf;
    ObservedSays(e.asset, e.row);
    RowsAreEntries(request, frames, e.asset, e.row);
    assert e == Entry(e.asset, e.row) && IsRowOf(request, frames, bar.asset, e.row);
  }

  lemma {:induction false} RowIsSaid(h: History, request: Request, frames: map<string, seq<SourceRow>>, asset: string, row: SourceRow)
    requires ListsObservations(h, Entries(request.assets, frames)) && IsRowOf(request, frames, asset, row) && row.day.Some?
    ensures exists status <- h.statuses :: status.asset == asset && SaysStatus(status, row)
    ensures (exists bar <- h.bars :: bar.asset == asset && SaysBar(bar, row)) <==> HasAllPrices(row)
  {
    var e, o := Entry(asset, row), Observed(asset, row);
    RowsAreEntries(request, frames, asset, row);
    ObservedSays(asset, row);
    assert o.status in h.statuses && (HasPrices(row) ==> o.bar.value in h.bars);
    hide Entries, Observed, SaysBar, SaysStatus, HasPrices, HasAllPrices, ListsObservations, IsRowOf;
    if HasAllPrices(row) {
      assert o.bar.value in h.bars && SaysBar(o.bar.value, row);
    }
  }

  lemma {:induction false} ListsAreDistinct(h: History, entries: seq<Entry>)
    requires ListsObservations(h, entries)
    ensures forall i, j :: 0 <= i < j < |h.statuses| ==> h.statuses[i].asset != h.statuses[j].asset || h.statuses[i].day != h.statuses[j].day
    ensures forall i, j :: 0 <= i < j < |h.bars| ==> h.bars[i].asset != h.bars[j].asset || h.bars[i].day != h.bars[j].day
  {
    hide Observed, HasPrices;
  }

  lemma {:induction false} ObservationsAreSaid(h: History, request: Request, frames: map<string, seq<SourceRow>>)
    requires ListsObservations(h, Entries(request.assets, frames))
    requires forall e <- Entries(request.assets, frames) :: InRange(e, request)
    ensures IsFaithful(h, request, frames)
  {
    hide Entries, Observed, SaysBar, SaysStatus, HasPrices, HasAllPrices, ListsObservations, IsRowOf;
    ListsAreDistinct(h, Entries(request.assets, frames));
    forall status | status in h.statuses
      ensures exists row: SourceRow :: IsRowOf(request, frames, status.asset, row) && SaysStatus(status, row)
      ensures request.startDay <= status.day <= request.endDay
    {
      StatusIsSaid(h, request, frames, status);
    }
    forall bar | bar in h.bars
      ensures exists row: SourceRow :: IsRowOf(request, frames, bar.asset, row) && SaysBar(bar, row)
      ensures exists status <- h.statuses :: status.asset == bar.asset && status.day == bar.day
    {
      BarIsSaid(h, request, frames, bar);
    }
    forall asset: string, row: SourceRow | IsRowOf(request, frames, asset, row)
      ensures exists status <- h.statuses :: status.asset == asset && SaysStatus(status, row)
      ensures (exists bar <- h.bars :: bar.asset == asset && SaysBar(bar, row)) <==> HasAllPrices(row)
    {
      RowsAreEntries(request, frames, asset, row);
      assert InRange(Entry(asset, row), request);
      RowIsSaid(h, request, frames, asset, row);
    }
  }

  lemma {:induction false} StatusDay(status: Status, row: SourceRow)
    requires SaysStatus(status, row)
    ensures row.day == Some(status.day)
  {
    hide SaysFlag;
  }

  /** An accepted read is faithful to its rows, and neither list has more than 6400 elements. */
  lemma {:induction false} HistoryIsFaithful(request: Request, frames: map<string, seq<SourceRow>>)
    requires IsValidRequest(request) && ObserveAll([], Entries(request.assets, frames), request).Ok?
    ensures var h := HistoryOf(ObserveAll([], Entries(request.assets, frames), request).value);
            IsFaithful(h, request, frames) && |h.bars| <= |h.statuses| <= 6400
  {
    var entries := Entries(request.assets, frames);
    var seen := ObserveAll([], entries, request).value;
    ObservationsAreExact([], entries, request);
    EntriesAreAsked(request.assets, frames);
    forall o | o in seen
      ensures IsInGrid(o, request)
      ensures o.bar.Some? ==> o.bar.value.asset == o.status.asset && o.bar.value.day == o.status.day
    {
      var e :| e in entries && o == Observed(e.asset, e.row);
      assert IsSeen(e, seen, request);
    }
    BarsAre(seen);
    hide ObserveAll, Entries, Bars, Statuses, IsValidRequest, IsFaithful;
    ObservationsFit(seen, request);
    ObservationsAreFaithful(seen, entries);
    ObservationsAreSaid(HistoryOf(seen), request, frames);
  }

  /** The rows are accepted exactly when all are in range and no two rows of one asset conflict. */
  lemma {:induction false} ReadAcceptsExactly(request: Request, frames: map<string, seq<SourceRow>>)
    ensures ObserveAll([], Entries(request.assets, frames), request).Ok? <==>
              && (forall asset: string, row: SourceRow | IsRowOf(request, frames, asset, row) :: row.day.Some? && request.startDay <= row.day.value <= request.endDay)
              && (forall asset: string, a: SourceRow, b: SourceRow | IsRowOf(request, frames, asset, a) && IsRowOf(request, frames, asset, b) :: !Conflict(a, b))
  {
    hide *;
    ConsistentParts(Entries(request.assets, frames), request);
    AcceptsConsistentRows([], Entries(request.assets, frames), request);
    EntriesInRange(request, frames);
    EntriesAgree(request, frames);
  }

  lemma {:induction false} ConsistentParts(entries: seq<Entry>, request: Request)
    ensures HasDistinctKeys([])
    ensures AreConsistent([], entries, request) <==>
              (forall e <- entries :: InRange(e, request)) && (forall a <- entries, b <- entries :: !Contradict(a, b))
  {
    hide InRange, Contradict;
  }

  lemma {:induction false} EntriesInRange(request: Request, frames: map<string, seq<SourceRow>>)
    ensures (forall e <- Entries(request.assets, frames) :: InRange(e, request)) <==>
              forall asset: string, row: SourceRow | IsRowOf(request, frames, asset, row) :: row.day.Some? && request.startDay <= row.day.value <= request.endDay
  {
    hide Entries, IsRowOf;
    forall asset: string, row: SourceRow
      ensures Entry(asset, row) in Entries(request.assets, frames) <==> IsRowOf(request, frames, asset, row)
    {
      RowsAreEntries(request, frames, asset, row);
    }
    assert forall e: Entry :: e == Entry(e.asset, e.row);
    if forall asset: string, row: SourceRow | IsRowOf(request, frames, asset, row) :: row.day.Some? && request.startDay <= row.day.value <= request.endDay {
      forall e | e in Entries(request.assets, frames)
        ensures InRange(e, request)
      {
        assert IsRowOf(request, frames, e.asset, e.row);
      }
    }
    if forall e <- Entries(request.assets, frames) :: InRange(e, request) {
      forall asset: string, row: SourceRow | IsRowOf(request, frames, asset, row)
        ensures row.day.Some? && request.startDay <= row.day.value <= request.endDay
      {
        assert InRange(Entry(asset, row), request);
      }
    }
  }

  lemma {:induction false} EntriesAgree(request: Request, frames: map<string, seq<SourceRow>>)
    ensures (forall a <- Entries(request.assets, frames), b <- Entries(request.assets, frames) :: !Contradict(a, b)) <==>
              forall asset: string, a: SourceRow, b: SourceRow | IsRowOf(request, frames, asset, a) && IsRowOf(request, frames, asset, b) :: !Conflict(a, b)
  {
    hide Entries, IsRowOf, Conflict, Contradict;
    var entries := Entries(request.assets, frames);
    if forall asset: string, a: SourceRow, b: SourceRow | IsRowOf(request, frames, asset, a) && IsRowOf(request, frames, asset, b) :: !Conflict(a, b) {
      forall a, b | a in entries && b in entries
        ensures !Contradict(a, b)
      {
        assert a == Entry(a.asset, a.row) && b == Entry(b.asset, b.row);
        RowsAreEntries(request, frames, a.asset, a.row);
        RowsAreEntries(request, frames, b.asset, b.row);
        if a.asset == b.asset {
          ConflictIsContradiction(a.asset, a.row, b.row);
        } else {
          OtherAssets(a, b);
        }
      }
    }
    if forall a <- entries, b <- entries :: !Contradict(a, b) {
      forall asset: string, a: SourceRow, b: SourceRow | IsRowOf(request, frames, asset, a) && IsRowOf(request, frames, asset, b)
        ensures !Conflict(a, b)
      {
        RowsAreEntries(request, frames, asset, a);
        RowsAreEntries(request, frames, asset, b);
        ConflictIsContradiction(asset, a, b);
      }
    }
  }

  lemma {:induction false} OtherAssets(a: Entry, b: Entry)
    requires a.asset != b.asset
    ensures !Contradict(a, b)
  {
  }

  /** A request is valid exactly for 1 to 200 different codes without blanks around them, and 1 to 32 days that are past. */
  lemma {:induction false} RequestIsExact(request: Request)
    ensures IsValidRequest(request) <==>
              && request.startDay <= request.endDay < request.today && request.endDay - request.startDay + 1 <= 32
              && 0 < |request.assets| <= 200
              && (forall i :: 0 <= i < |request.assets| ==>
                    var asset := request.assets[i];
                    && asset != "" && !Remarks.IsSpace(asset[0]) && !Remarks.IsSpace(asset[|asset| - 1])
                    && forall j :: 0 <= j < i ==> request.assets[j] != asset)
  {
    hide Remarks.IsSpace;
    assert forall i :: 0 <= i < |request.assets| ==> request.assets[i] in request.assets;
  }
}
