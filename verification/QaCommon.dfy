/** benchmarks/_qa_common.py: the spend cap shared by concurrent requests, the retry loop of one
    request, and the append-only result log. */
module QaCommon {
  import opened Arithmetic
  import opened Sequences

  // ---------------------------------------------------------------------------------------
  // One request.

  const RETRIES := 5

  /** A reply that parses has a cost, unless its model has no price, and normally a message; one
      that does not parse is garbled. */
  datatype Attempt = Success(cost: Option<real>, message: bool) | Garbled | HttpError(code: int) | NetworkError

  /** All but the first and the last are errors; those that come from an attempt carry its number. */
  datatype Reply = Answered(cost: real) | NoMessage(cost: real) | NoPrice | BadBody(attempt: nat)
                 | GaveUp(attempt: nat) | OverBudget

  predicate Transient(a: Attempt) {
    a.NetworkError? || (a.HttpError? && a.code in {408, 409, 429, 500, 502, 503, 504})
  }

  /** Attempt `k` settles the request: everything before it was a transient failure, and it is
      something else or the last one allowed. */
  ghost predicate SettledBy(attempts: seq<Attempt>, k: int) {
    && 0 <= k < RETRIES <= |attempts|
    && (forall j :: 0 <= j < k ==> Transient(attempts[j]))
    && (!Transient(attempts[k]) || k == RETRIES - 1)
  }

  function ReplyAt(attempts: seq<Attempt>, k: int): Reply
    requires 0 <= k < |attempts|
  {
    match attempts[k]
    case Success(cost, message) =>
      if cost.None? then NoPrice else if message then Answered(cost.value) else NoMessage(cost.value)
    case Garbled => BadBody(k)
    case _ => GaveUp(k)
  }

  /** The reply to a request is determined by its attempts. */
  lemma ReplyUnique(attempts: seq<Attempt>, j: int, k: int)
    requires SettledBy(attempts, j) && SettledBy(attempts, k)
    ensures ReplyAt(attempts, j) == ReplyAt(attempts, k)
  {
    assert j == k;
  }

  /** An attempt that is worth repeating, code by code. */
  ghost predicate WorthRepeating(a: Attempt) {
    a == NetworkError || a == HttpError(408) || a == HttpError(409) || a == HttpError(429)
    || a == HttpError(500) || a == HttpError(502) || a == HttpError(503) || a == HttpError(504)
  }

  /** Which attempt decides, and how: of five, the first that is not worth repeating, or the
      last. */
  lemma DecidingAttempt(attempts: seq<Attempt>, k: int)
    requires SettledBy(attempts, k)
    ensures 0 <= k <= 4 && (forall j :: 0 <= j < k ==> WorthRepeating(attempts[j]))
    ensures k < 4 ==> !WorthRepeating(attempts[k])
    ensures forall cost :: ReplyAt(attempts, k) == Answered(cost) <==> attempts[k] == Success(Some(cost), true)
    ensures forall cost :: ReplyAt(attempts, k) == NoMessage(cost) <==> attempts[k] == Success(Some(cost), false)
    ensures ReplyAt(attempts, k) == NoPrice <==> attempts[k].Success? && attempts[k].cost.None?
    ensures ReplyAt(attempts, k).BadBody? <==> attempts[k] == Garbled
    ensures ReplyAt(attempts, k).GaveUp? <==> attempts[k] == NetworkError || attempts[k].HttpError?
  {
    assert forall j :: 0 <= j < |attempts| ==> (Transient(attempts[j]) <==> WorthRepeating(attempts[j]));
  }

  class OpenAIClient {
    const budget: real
    var spent: real
    ghost var inFlight: set<Thread>
    ghost var events: seq<Event>

    /** The object is in the state that its guards, charges and failures lead to. */
    ghost predicate Valid()
      reads this
    {
      Ledger(spent, inFlight) == Run(budget, events)
    }

    constructor (budget: real)
      ensures Valid() && this.budget == budget && spent == 0.0 && events == []
    {
      this.budget, spent, inFlight, events := budget, 0.0, {}, [];
    }

    /** The guard, under the lock. */
    method MaySpend(ghost thread: Thread) returns (ok: bool)
      requires Valid()
      modifies this
      ensures Valid() && events == old(events) + [Guard(thread)]
      ensures spent == old(spent) && (ok <==> spent < budget)
    {
      ghost var now := Extended(Guard(thread));
      ok := !(spent >= budget);
      if ok {
        inFlight := inFlight + {thread};
      }
      events := now;
    }

    /** The charge, under the lock. */
    method AddCost(cost: real, ghost thread: Thread)
      requires Valid()
      modifies this
      ensures Valid() && events == old(events) + [Charged(thread, cost)]
      ensures spent == old(spent) + cost
    {
      ghost var now := Extended(Charged(thread, cost));
      spent := spent + cost;
      inFlight, events := inFlight - {thread}, now;
    }

    /** The history with one more event. */
    lemma Extended(e: Event) returns (now: seq<Event>)
      requires Valid()
      ensures now == events + [e]
      ensures Run(budget, now) == After(budget, Ledger(spent, inFlight), e)
    {
      now := events + [e];
      RunExtend(budget, events, e);
    }

    /** The retry loop, which holds no lock. */
    method Request(attempts: seq<Attempt>) returns (reply: Reply)
      requires |attempts| == RETRIES
      ensures exists k :: SettledBy(attempts, k) && reply == ReplyAt(attempts, k)
    {
      for n := 0 to RETRIES
        invariant forall j :: 0 <= j < n ==> Transient(attempts[j])
        invariant n < RETRIES
      {
        match attempts[n] {
          case Success(cost, message) =>
            assert SettledBy(attempts, n);
            return if cost.None? then NoPrice else if message then Answered(cost.value) else NoMessage(cost.value);
          case Garbled =>
            assert SettledBy(attempts, n);
            return BadBody(n);
          case HttpError(code) =>
            if code !in {408, 409, 429, 500, 502, 503, 504} || n == RETRIES - 1 {
              assert SettledBy(attempts, n);
              return GaveUp(n);
            }
          case NetworkError =>
            if n == RETRIES - 1 {
              assert SettledBy(attempts, n);
              return GaveUp(n);
            }
        }
      }
    }

    /** A call with no other call in between. */
    method Chat(attempts: seq<Attempt>, ghost thread: Thread) returns (reply: Reply)
      requires |attempts| == RETRIES && Valid()
      modifies this
      ensures Valid()
      ensures old(spent) >= budget <==> reply == OverBudget
      ensures spent == old(spent) + (if reply.Answered? || reply.NoMessage? then reply.cost else 0.0)
      ensures reply != OverBudget ==> exists k :: SettledBy(attempts, k) && reply == ReplyAt(attempts, k)
      ensures events == old(events) + [Guard(thread)] + (if reply == OverBudget then []
                                                         else if reply.Answered? || reply.NoMessage?
                                                         then [Charged(thread, reply.cost)] else [Failed(thread)])
    {
      var ok := MaySpend(thread);
      if !ok {
        return OverBudget;
      }
      reply := Request(attempts);
      if reply.Answered? || reply.NoMessage? {
        AddCost(reply.cost, thread);
      } else {
        ghost var now := Extended(Failed(thread));
        inFlight, events := inFlight - {thread}, now;
      }
    }
  }

  // ---------------------------------------------------------------------------------------
  // Concurrent calls: guards and charges interleave arbitrarily.

  type Thread = nat

  datatype Event = Guard(thread: Thread) | Charged(thread: Thread, cost: real) | Failed(thread: Thread)

  /** `inFlight` are the threads between a passed guard and their charge or failure. */
  datatype Ledger = Ledger(spent: real, inFlight: set<Thread>)

  datatype Limits = Limits(budget: real, workers: nat, maxCost: real)

  function After(budget: real, s: Ledger, e: Event): Ledger {
    match e
    case Guard(t) => if s.spent >= budget then s else s.(inFlight := s.inFlight + {t})
    case Charged(t, cost) => Ledger(s.spent + cost, s.inFlight - {t})
    case Failed(t) => s.(inFlight := s.inFlight - {t})
  }

  /** At most `workers` calls at once, each costing between nothing and `maxCost`. */
  predicate Allowed(l: Limits, s: Ledger, e: Event) {
    match e
    case Guard(t) => t !in s.inFlight && |s.inFlight| < l.workers
    case Charged(t, cost) => t in s.inFlight && 0.0 <= cost <= l.maxCost
    case Failed(t) => t in s.inFlight
  }

  function Run(budget: real, events: seq<Event>): Ledger {
    if events == [] then Ledger(0.0, {})
    else After(budget, Run(budget, events[..|events| - 1]), events[|events| - 1])
  }

  lemma RunExtend(budget: real, before: seq<Event>, e: Event)
    ensures Run(budget, before + [e]) == After(budget, Run(budget, before), e)
  {
    assert (before + [e])[..|before|] == before;
  }

  /** Every event of the run was allowed when it happened. */
  ghost predicate Legal(l: Limits, events: seq<Event>) {
    events == [] ||
    (var before, e := events[..|events| - 1], events[|events| - 1];
     Legal(l, before) && Allowed(l, Run(l.budget, before), e))
  }

  /** `n` times `x`. */
  function Times(n: nat, x: real): real { if n == 0 then 0.0 else Times(n - 1, x) + x }

  lemma {:induction false} TimesProduct(n: nat, x: real)
    ensures Times(n, x) == n as real * x
  {
    if n > 0 {
      TimesProduct(n - 1, x);
      var m := (n - 1) as real;
      assert (m + 1.0) * x == m * x + x;
    }
  }

  lemma {:induction false} TimesGrows(m: nat, n: nat, x: real)
    requires m <= n && x >= 0.0
    ensures 0.0 <= Times(m, x) <= Times(n, x)
    decreases n
  {
    if m < n {
      TimesGrows(m, n - 1, x);
    } else if n > 0 {
      TimesGrows(n - 1, n - 1, x);
    }
  }

  /** Spending stays below the budget plus one maximal cost for each idle worker. */
  ghost predicate Capped(l: Limits, s: Ledger) {
    |s.inFlight| <= l.workers && s.spent < l.budget + Times(l.workers - |s.inFlight|, l.maxCost)
  }

  lemma CapStep(l: Limits, s: Ledger, e: Event)
    requires l.maxCost >= 0.0 && Allowed(l, s, e) && Capped(l, s)
    ensures Capped(l, After(l.budget, s, e))
  {
    match e
    case Guard(t) =>
      if s.spent < l.budget {
        assert |s.inFlight + {t}| == |s.inFlight| + 1;
        TimesGrows(0, l.workers - |s.inFlight| - 1, l.maxCost);
      }
    case Charged(t, cost) =>
      assert |s.inFlight - {t}| == |s.inFlight| - 1;
    case Failed(t) =>
      assert |s.inFlight - {t}| == |s.inFlight| - 1;
  }

  /** At every point of every interleaving the money spent stays below the budget plus one
      maximal cost for each worker that is not in flight. Without a positive budget nothing is
      ever spent. */
  lemma {:induction false} SpendCap(l: Limits, events: seq<Event>)
    requires l.maxCost >= 0.0 && Legal(l, events)
    ensures if l.budget > 0.0 then Capped(l, Run(l.budget, events)) else Run(l.budget, events) == Ledger(0.0, {})
  {
    if events == [] {
      TimesGrows(0, l.workers, l.maxCost);
    } else {
      var before := events[..|events| - 1];
      SpendCap(l, before);
      if l.budget > 0.0 {
        CapStep(l, Run(l.budget, before), events[|events| - 1]);
      }
    }
  }

  /** The overshoot is less than one maximal cost per worker. */
  lemma OvershootBound(l: Limits, events: seq<Event>)
    requires l.maxCost >= 0.0 && Legal(l, events)
    ensures l.budget > 0.0 ==> Run(l.budget, events).spent < l.budget + Times(l.workers, l.maxCost)
    ensures l.budget <= 0.0 ==> Run(l.budget, events).spent == 0.0
  {
    SpendCap(l, events);
    if l.budget > 0.0 {
      TimesGrows(l.workers - |Run(l.budget, events).inFlight|, l.workers, l.maxCost);
    }
  }

  function Guards(before: seq<Event>, n: nat): seq<Event> {
    if n == 0 then before else Guards(before, n - 1) + [Guard(n - 1)]
  }

  function Charges(before: seq<Event>, n: nat, cost: real): seq<Event> {
    if n == 0 then before else Charges(before, n - 1, cost) + [Charged(n - 1, cost)]
  }

  /** One worker makes `n` calls in a row. */
  function Calls(n: nat, cost: real): seq<Event> {
    if n == 0 then [] else Calls(n - 1, cost) + [Guard(0)] + [Charged(0, cost)]
  }

  lemma LegalExtend(l: Limits, before: seq<Event>, e: Event)
    requires Legal(l, before) && Allowed(l, Run(l.budget, before), e)
    ensures Legal(l, before + [e]) && Run(l.budget, before + [e]) == After(l.budget, Run(l.budget, before), e)
  {
    assert (before + [e])[..|before|] == before;
    RunExtend(l.budget, before, e);
  }

  /** The first `n` threads are in flight after `spent` was spent. */
  ghost predicate Entered(s: Ledger, n: nat, spent: real) {
    && s.spent == spent && |s.inFlight| == n
    && (forall t: Thread :: t in s.inFlight ==> t < n)
    && (forall t: Thread :: t < n ==> t in s.inFlight)
  }

  lemma EnterStep(l: Limits, s: Ledger, n: nat, spent: real)
    requires Entered(s, n, spent) && spent < l.budget && n < l.workers
    ensures Allowed(l, s, Guard(n)) && Entered(After(l.budget, s, Guard(n)), n + 1, spent)
  {
    assert n !in s.inFlight;
    assert |s.inFlight + {n}| == n + 1;
  }

  lemma Enter(l: Limits, before: seq<Event>, n: nat, spent: real)
    requires Legal(l, before) && Entered(Run(l.budget, before), n, spent) && spent < l.budget && n < l.workers
    ensures Legal(l, before + [Guard(n)]) && Entered(Run(l.budget, before + [Guard(n)]), n + 1, spent)
  {
    EnterStep(l, Run(l.budget, before), n, spent);
    LegalExtend(l, before, Guard(n));
  }

  lemma {:induction false} AllEnter(l: Limits, before: seq<Event>, n: nat, spent: real)
    requires Legal(l, before) && Entered(Run(l.budget, before), 0, spent) && spent < l.budget && n <= l.workers
    ensures Legal(l, Guards(before, n)) && Entered(Run(l.budget, Guards(before, n)), n, spent)
  {
    if n > 0 {
      AllEnter(l, before, n - 1, spent);
      Enter(l, Guards(before, n - 1), n - 1, spent);
    }
  }

  /** The first `n` workers were charged in full since `spent` was spent, the others are in flight. */
  ghost predicate Leaving(l: Limits, s: Ledger, n: nat, spent: real) {
    s.spent == spent + Times(n, l.maxCost) && forall t: Thread :: n <= t < l.workers ==> t in s.inFlight
  }

  lemma Leave(l: Limits, before: seq<Event>, n: nat, spent: real)
    requires l.maxCost >= 0.0 && Legal(l, before) && Leaving(l, Run(l.budget, before), n, spent) && n < l.workers
    ensures Legal(l, before + [Charged(n, l.maxCost)])
    ensures Leaving(l, Run(l.budget, before + [Charged(n, l.maxCost)]), n + 1, spent)
  {
    LegalExtend(l, before, Charged(n, l.maxCost));
  }

  lemma {:induction false} AllCharge(l: Limits, guards: seq<Event>, n: nat)
    requires l.maxCost >= 0.0 && Legal(l, guards) && n <= l.workers
    requires forall t: Thread :: t < l.workers ==> t in Run(l.budget, guards).inFlight
    ensures Legal(l, Charges(guards, n, l.maxCost))
    ensures Leaving(l, Run(l.budget, Charges(guards, n, l.maxCost)), n, Run(l.budget, guards).spent)
  {
    if n > 0 {
      AllCharge(l, guards, n - 1);
      Leave(l, Charges(guards, n - 1, l.maxCost), n - 1, Run(l.budget, guards).spent);
    }
  }

  lemma OneCall(l: Limits, before: seq<Event>, spent: real, cost: real)
    requires Legal(l, before) && Run(l.budget, before) == Ledger(spent, {})
    requires 0.0 <= cost <= l.maxCost && l.workers > 0 && spent < l.budget
    ensures Legal(l, before + [Guard(0)] + [Charged(0, cost)])
    ensures Run(l.budget, before + [Guard(0)] + [Charged(0, cost)]) == Ledger(spent + cost, {})
  {
    LegalExtend(l, before, Guard(0));
    LegalExtend(l, before + [Guard(0)], Charged(0, cost));
  }

  lemma {:induction false} CallsInARow(l: Limits, n: nat, cost: real)
    requires 0.0 <= cost <= l.maxCost && l.workers > 0 && Times(n, cost) < l.budget
    ensures Legal(l, Calls(n, cost)) && Run(l.budget, Calls(n, cost)) == Ledger(Times(n, cost), {})
  {
    if n > 0 {
      TimesGrows(n - 1, n, cost);
      CallsInARow(l, n - 1, cost);
      OneCall(l, Calls(n - 1, cost), Times(n - 1, cost), cost);
    }
  }

  /** Equal calls, each within the limit, that spend a given amount. */
  lemma SpendExactly(target: real, maxCost: real) returns (n: nat, cost: real)
    requires target >= 0.0 && maxCost > 0.0
    ensures 0.0 <= cost <= maxCost && Times(n, cost) == target
  {
    FractionCompare(target, maxCost);
    n := (target / maxCost).Floor + 1;
    cost := target / n as real;
    TimesProduct(n, cost);
    Quotient(target, n as real);
    FractionCompare(target, n as real);
    QuotientAtMost(target, maxCost, n as real);
  }

  lemma Quotient(x: real, m: real)
    requires m > 0.0
    ensures x / m * m == x && m * (x / m) == x
  {
    var q := x / m;
    assert q * m == x;
  }

  /** Divisors and quotients can be exchanged in a bound. */
  lemma QuotientAtMost(x: real, a: real, m: real)
    requires a > 0.0 && m > 0.0 && x / a <= m
    ensures x / m <= a
  {
    var q, r := x / a, x / m;
    Quotient(x, a);
    Quotient(x, m);
    MulOrder(q, m, a);
  }

  /** The bound cannot be lowered, whatever the budget: some legal interleaving comes as close to
      it as one likes. */
  lemma OvershootTight(l: Limits, slack: real) returns (events: seq<Event>)
    requires l.budget > 0.0 && l.maxCost > 0.0 && l.workers > 0 && slack > 0.0
    ensures Legal(l, events) && Run(l.budget, events).spent > l.budget + Times(l.workers, l.maxCost) - slack
  {
    var target := if slack / 2.0 < l.budget then l.budget - slack / 2.0 else 0.0;
    var n, cost := SpendExactly(target, l.maxCost);
    CallsInARow(l, n, cost);
    AllEnter(l, Calls(n, cost), l.workers, target);
    var guards := Guards(Calls(n, cost), l.workers);
    AllCharge(l, guards, l.workers);
    events := Charges(guards, l.workers, l.maxCost);
  }

  // ---------------------------------------------------------------------------------------
  // The result log, one line per row.

  type Row = map<string, string>

  /** The value's own fields win over the key. */
  function RowOf(key: string, value: Row): Row { map["key" := key] + value }

  /** The row has the value's fields, and the key unless the value brings its own. */
  lemma RowMeaning(key: string, value: Row)
    ensures RowOf(key, value).Keys == value.Keys + {"key"}
    ensures forall k :: k in value ==> RowOf(key, value)[k] == value[k]
    ensures "key" !in value ==> RowOf(key, value)["key"] == key
  {
  }

  /** The value does not rename the key of its row. */
  predicate Honest(key: string, value: Row) { "key" !in value || value["key"] == key }

  /** The characters that the encoder leaves as they are but the reader takes for line breaks. */
  predicate BreaksLine(c: char) { c == '\U{85}' || c == '\U{2028}' || c == '\U{2029}' }

  predicate Unbroken(s: string) { forall c :: c in s ==> !BreaksLine(c) }

  /** The row's line is read back as one line. */
  predicate OneLine(row: Row) { forall k :: k in row ==> Unbroken(k) && Unbroken(row[k]) }

  /** A row stays on one line unless a field's name or text holds one of three characters. */
  lemma OneLineMeaning(row: Row)
    ensures OneLine(row) <==>
              && (forall k, c :: k in row && c in k ==> c != '\U{85}' && c != '\U{2028}' && c != '\U{2029}')
              && (forall k, c :: k in row && c in row[k] ==> c != '\U{85}' && c != '\U{2028}' && c != '\U{2029}')
  {
    if !OneLine(row) {
      var k :| k in row && !(Unbroken(k) && Unbroken(row[k]));
      if Unbroken(k) {
        var c := Breaking(row[k]);
      } else {
        var c := Breaking(k);
      }
    }
  }

  lemma Breaking(s: string) returns (c: char)
    requires !Unbroken(s)
    ensures c in s && (c == '\U{85}' || c == '\U{2028}' || c == '\U{2029}')
  {
    c :| c in s && BreaksLine(c);
  }

  /** None is the failure to load: a line that was broken up, or a row without a key. */
  function Reload(log: seq<Row>): Option<map<string, Row>> {
    if log == [] then Some(map[])
    else
      var row := log[|log| - 1];
      match Reload(log[..|log| - 1])
      case None => None
      case Some(before) => if "key" in row && OneLine(row) then Some(before[row["key"] := row]) else None
  }

  class Cache {
    var rows: map<string, Row>
    var log: seq<Row>

    /** Reloading the file gives the rows in memory. */
    ghost predicate Valid()
      reads this
    {
      Reload(log) == Some(rows)
    }

    constructor (rows: map<string, Row>, log: seq<Row>)
      ensures this.rows == rows && this.log == log
    {
      this.rows, this.log := rows, log;
    }

    /** None is the failure to load. */
    static method Open(file: seq<Row>) returns (cache: Option<Cache>)
      ensures cache.Some? <==> Reload(file).Some?
      ensures cache.Some? ==> fresh(cache.value) && cache.value.Valid() && cache.value.log == file
    {
      var loaded: map<string, Row> := map[];
      for n := 0 to |file|
        invariant Reload(file[..n]) == Some(loaded)
      {
        assert file[..n + 1][..n] == file[..n];
        if "key" !in file[n] || !OneLine(file[n]) {
          ReloadFails(file, n + 1);
          return None;
        }
        loaded := loaded[file[n]["key"] := file[n]];
      }
      assert file[..|file|] == file;
      var c := new Cache(loaded, file);
      return Some(c);
    }

    method Get(key: string) returns (row: Option<Row>)
      ensures row == if key in rows then Some(rows[key]) else None
    {
      row := if key in rows then Some(rows[key]) else None;
    }

    /** Memory and file agree after a put exactly when they did before, the value does not carry
        another key, and nothing in the row breaks its line. */
    method Put(key: string, value: Row)
      modifies this
      ensures rows == old(rows)[key := RowOf(key, value)] && log == old(log) + [RowOf(key, value)]
      ensures old(Valid()) ==> (Valid() <==> Honest(key, value) && OneLine(RowOf(key, value)))
    {
      var row := RowOf(key, value);
      AppendAgrees(log, key, value);
      rows := rows[key := row];
      log := log + [row];
    }
  }

  lemma {:induction false} ReloadFails(log: seq<Row>, n: nat)
    requires n <= |log| && Reload(log[..n]).None?
    ensures Reload(log).None?
    decreases |log|
  {
    if n < |log| {
      assert log[..|log| - 1][..n] == log[..n];
      ReloadFails(log[..|log| - 1], n);
    } else {
      assert log[..n] == log;
    }
  }

  lemma {:induction false} ReloadedUnderOwnKey(log: seq<Row>)
    requires Reload(log).Some?
    ensures forall k :: k in Reload(log).value ==> "key" in Reload(log).value[k] && Reload(log).value[k]["key"] == k
  {
    if log != [] {
      ReloadedUnderOwnKey(log[..|log| - 1]);
    }
  }

  /** Row `i` is the last one with the key. */
  ghost predicate LastRowOf(log: seq<Row>, key: string, i: int) {
    && 0 <= i < |log| && "key" in log[i] && log[i]["key"] == key
    && forall j :: i < j < |log| && "key" in log[j] ==> log[j]["key"] != key
  }

  /** Loading succeeds exactly when every row has a key and one line, and then gives for each key
      its last row. */
  lemma {:induction false} ReloadMeaning(log: seq<Row>)
    ensures Reload(log).Some? <==> forall i :: 0 <= i < |log| ==> "key" in log[i] && OneLine(log[i])
    ensures Reload(log).Some? ==>
              forall k :: k in Reload(log).value ==> exists i :: LastRowOf(log, k, i) && Reload(log).value[k] == log[i]
    ensures Reload(log).Some? ==> forall i :: 0 <= i < |log| && "key" in log[i] ==> log[i]["key"] in Reload(log).value
  {
    if log != [] {
      var init, last := log[..|log| - 1], log[|log| - 1];
      ReloadMeaning(init);
      assert forall i :: 0 <= i < |init| ==> init[i] == log[i];
      if Reload(log).Some? {
        forall k | k in Reload(log).value ensures exists i :: LastRowOf(log, k, i) && Reload(log).value[k] == log[i] {
          LastRowExtend(init, last, k);
          assert log == init + [last];
        }
      }
    }
  }

  lemma LastRowExtend(log: seq<Row>, row: Row, k: string)
    requires Reload(log + [row]).Some? && k in Reload(log + [row]).value
    requires Reload(log).Some? && k in Reload(log).value ==>
               exists i :: LastRowOf(log, k, i) && Reload(log).value[k] == log[i]
    ensures exists i :: LastRowOf(log + [row], k, i) && Reload(log + [row]).value[k] == (log + [row])[i]
  {
    var after := log + [row];
    assert after[..|log|] == log;
    if k == row["key"] {
      assert LastRowOf(after, k, |log|);
    } else {
      var i :| LastRowOf(log, k, i) && Reload(log).value[k] == log[i];
      assert LastRowOf(after, k, i);
    }
  }

  lemma AppendAgrees(log: seq<Row>, key: string, value: Row)
    ensures var row := RowOf(key, value);
            Reload(log).Some? ==>
              (Reload(log + [row]) == Some(Reload(log).value[key := row]) <==> Honest(key, value) && OneLine(row))
  {
    var row := RowOf(key, value);
    assert (log + [row])[..|log|] == log;
    if Reload(log).Some? && !Honest(key, value) && OneLine(row) {
      ReloadedUnderOwnKey(log);
      var before := Reload(log).value;
      var memory, reloaded := before[key := row], before[row["key"] := row];
      assert memory[key] == row;
      assert key in reloaded ==> reloaded[key] != row;
    }
  }

  datatype PutOp = PutOp(key: string, value: Row)

  function Memory(puts: seq<PutOp>): map<string, Row> {
    if puts == [] then map[]
    else
      var p := puts[|puts| - 1];
      Memory(puts[..|puts| - 1])[p.key := RowOf(p.key, p.value)]
  }

  function Log(puts: seq<PutOp>): seq<Row> {
    seq(|puts|, i requires 0 <= i < |puts| => RowOf(puts[i].key, puts[i].value))
  }

  /** A reload at any moment of the run gives exactly the rows in memory. */
  ghost predicate AlwaysAgrees(puts: seq<PutOp>) {
    Reload(Log(puts)) == Some(Memory(puts)) && (puts == [] || AlwaysAgrees(puts[..|puts| - 1]))
  }

  ghost predicate Reloadable(p: PutOp) { Honest(p.key, p.value) && OneLine(RowOf(p.key, p.value)) }

  ghost predicate AllReloadable(puts: seq<PutOp>) {
    forall i :: 0 <= i < |puts| ==> Reloadable(puts[i])
  }

  /** Whatever order the puts of all threads take effect in, memory and log agree at every
      moment exactly when no value carries another key and nothing breaks a row's line. */
  lemma {:induction false} ReloadExactly(puts: seq<PutOp>)
    ensures AlwaysAgrees(puts) <==> AllReloadable(puts)
  {
    if puts != [] {
      var before, p := puts[..|puts| - 1], puts[|puts| - 1];
      ReloadExactly(before);
      assert puts == before + [p];
      if AlwaysAgrees(before) {
        AgreesStep(before, p);
      }
    }
  }

  lemma AgreesStep(before: seq<PutOp>, p: PutOp)
    requires Reload(Log(before)) == Some(Memory(before))
    ensures Reload(Log(before + [p])) == Some(Memory(before + [p])) <==> Reloadable(p)
  {
    var puts := before + [p];
    assert puts[..|before|] == before;
    assert Log(puts) == Log(before) + [RowOf(p.key, p.value)];
    AppendAgrees(Log(before), p.key, p.value);
  }
}
