/** The bounded memo of derived keys, shared by concurrent callers. */
module KeyMemo {
  import opened Common

  /** A derived key pair; only equality matters. */
  type Keys(==, !new)

  const CACHE_LIMIT: nat := 1024

  datatype CacheKey = CacheKey(phrase: string, derivation: string)

  datatype Call = Call(phrase: string, password: string, derivation: string)

  type Outcome = Result<Keys, string>

  type Derivation = Call -> Outcome

  type Table = CacheKey -> Option<Keys>

  type Memo = map<CacheKey, Keys>

  function KeyOf(call: Call): CacheKey {
    CacheKey(call.phrase, call.derivation)
  }

  function Bare(key: CacheKey): Call {
    Call(key.phrase, "", key.derivation)
  }

  /** The keys that ship precomputed are the ones that would be derived. */
  ghost predicate Correct(derive: Derivation, table: Table) {
    forall key :: table(key).Some? ==> derive(Bare(key)) == Success(table(key).value)
  }

  // ---------------------------------------------------------------- the memo

  /** What may be left after making room, the evicted entry being any. */
  predicate MadeRoom(memo: Memo, evicted: CacheKey, room: Memo) {
    if |memo| >= CACHE_LIMIT then evicted in memo && room == memo - {evicted} else room == memo
  }

  lemma RemovingOne(memo: Memo, evicted: CacheKey)
    requires evicted in memo
    ensures |memo - {evicted}| == |memo| - 1
  {
    assert |memo.Keys| == |memo|;
    assert (memo - {evicted}).Keys == memo.Keys - {evicted};
    assert |(memo - {evicted}).Keys| == |memo - {evicted}|;
  }

  lemma AddingOne(memo: Memo, key: CacheKey, keys: Keys)
    ensures |memo[key := keys]| <= |memo| + 1
  {
    assert memo[key := keys].Keys == memo.Keys + {key};
    assert |memo[key := keys].Keys| == |memo[key := keys]|;
    assert |memo.Keys| == |memo|;
  }

  // ---------------------------------------------------------------- interleavings

  /** Where a caller stands: about to look up, deriving outside the lock, about to insert, or back with a result. */
  datatype Thread =
    | Looking(call: Call)
    | Deriving(call: Call)
    | Inserting(call: Call, keys: Keys)
    | Done(call: Call, outcome: Outcome)

  datatype State = State(memo: Memo, threads: map<nat, Thread>)

  datatype Event =
    | Enter(t: nat, call: Call)
    | LookUp(t: nat)
    | Derive(t: nat)
    | Insert(t: nat, evicted: CacheKey)
    | Die(t: nat)

  const INITIAL: State := State(map[], map[])

  /** A caller that finds no answer without deriving. */
  function LookedUp(table: Table, derive: Derivation, memo: Memo, call: Call): Thread {
    if call.password != "" then Done(call, derive(call))
    else if table(KeyOf(call)).Some? then Done(call, Success(table(KeyOf(call)).value))
    else if KeyOf(call) in memo then Done(call, Success(memo[KeyOf(call)]))
    else Deriving(call)
  }

  function Derived(derive: Derivation, call: Call): Thread {
    match derive(call)
    case Success(keys) => Inserting(call, keys)
    case Failure(_) => Done(call, derive(call))
  }

  function Inserted(memo: Memo, evicted: CacheKey, call: Call, keys: Keys): Memo {
    (if |memo| >= CACHE_LIMIT then memo - {evicted} else memo)[KeyOf(call) := keys]
  }

  /** One atomic step of one caller; an event that cannot happen now changes nothing. */
  function Step(table: Table, derive: Derivation, s: State, e: Event): State {
    if e.Enter? then
      if e.t in s.threads then s else s.(threads := s.threads[e.t := Looking(e.call)])
    else if e.t !in s.threads then s
    else match (s.threads[e.t], e)
      case (Looking(call), LookUp(t)) => s.(threads := s.threads[t := LookedUp(table, derive, s.memo, call)])
      case (Deriving(call), Derive(t)) => s.(threads := s.threads[t := Derived(derive, call)])
      case (Inserting(call, keys), Insert(t, evicted)) =>
        if |s.memo| >= CACHE_LIMIT && evicted !in s.memo then s
        else State(Inserted(s.memo, evicted, call, keys), s.threads[t := Done(call, Success(keys))])
      case (_, Die(t)) => s.(threads := s.threads - {t})
      case _ => s
  }

  function Run(table: Table, derive: Derivation, events: seq<Event>): State {
    if events == [] then INITIAL
    else Step(table, derive, Run(table, derive, events[..|events| - 1]), events[|events| - 1])
  }

  // ---------------------------------------------------------------- what every interleaving keeps

  ghost predicate Faithful(derive: Derivation, memo: Memo) {
    |memo| <= CACHE_LIMIT && forall key :: key in memo ==> derive(Bare(key)) == Success(memo[key])
  }

  ghost predicate ThreadKeeps(table: Table, derive: Derivation, thread: Thread) {
    match thread
    case Looking(_) => true
    case Deriving(call) => call.password == "" && table(KeyOf(call)).None?
    case Inserting(call, keys) => call.password == "" && table(KeyOf(call)).None? && derive(call) == Success(keys)
    case Done(call, outcome) => outcome == derive(call)
  }

  ghost predicate Invariant(table: Table, derive: Derivation, s: State) {
    Faithful(derive, s.memo) && forall t :: t in s.threads ==> ThreadKeeps(table, derive, s.threads[t])
  }

  lemma InsertedIsFaithful(derive: Derivation, memo: Memo, evicted: CacheKey, call: Call, keys: Keys)
    requires Faithful(derive, memo) && (|memo| >= CACHE_LIMIT ==> evicted in memo)
    requires call.password == "" && derive(call) == Success(keys)
    ensures Faithful(derive, Inserted(memo, evicted, call, keys))
  {
    var room := if |memo| >= CACHE_LIMIT then memo - {evicted} else memo;
    if |memo| >= CACHE_LIMIT {
      RemovingOne(memo, evicted);
    }
    AddingOne(room, KeyOf(call), keys);
    assert Bare(KeyOf(call)) == call;
  }

  lemma LookedUpKeeps(table: Table, derive: Derivation, memo: Memo, call: Call)
    requires Correct(derive, table) && Faithful(derive, memo)
    ensures ThreadKeeps(table, derive, LookedUp(table, derive, memo, call))
  {
    if call.password == "" {
      assert Bare(KeyOf(call)) == call;
    }
  }

  lemma StepKeepsInvariant(table: Table, derive: Derivation, s: State, e: Event)
    requires Correct(derive, table) && Invariant(table, derive, s)
    ensures Invariant(table, derive, Step(table, derive, s, e))
  {
    if e.t in s.threads {
      var thread := s.threads[e.t];
      if thread.Looking? && e.LookUp? {
        LookedUpKeeps(table, derive, s.memo, thread.call);
      } else if thread.Inserting? && e.Insert? && (|s.memo| >= CACHE_LIMIT ==> e.evicted in s.memo) {
        InsertedIsFaithful(derive, s.memo, e.evicted, thread.call, thread.keys);
      }
    }
  }

  lemma {:induction false} RunKeepsInvariant(table: Table, derive: Derivation, events: seq<Event>)
    requires Correct(derive, table)
    ensures Invariant(table, derive, Run(table, derive, events))
  {
    if events != [] {
      RunKeepsInvariant(table, derive, events[..|events| - 1]);
      StepKeepsInvariant(table, derive, Run(table, derive, events[..|events| - 1]), events[|events| - 1]);
    }
  }

  /** Under every interleaving, the memo stays within its limit, and whoever is back has what deriving alone gives. */
  lemma MemoIsTransparent(table: Table, derive: Derivation, events: seq<Event>, t: nat)
    requires Correct(derive, table)
    ensures var s := Run(table, derive, events);
            && |s.memo| <= CACHE_LIMIT
            && (forall key :: key in s.memo ==> derive(Bare(key)) == Success(s.memo[key]))
            && (t in s.threads && s.threads[t].Done? ==> s.threads[t].outcome == derive(s.threads[t].call))
  {
    RunKeepsInvariant(table, derive, events);
  }

  // ---------------------------------------------------------------- what is stored, and when it leaves

  /** The calls so far that may be memoized: without a passphrase, and not in the table. */
  function Memoizable(table: Table, events: seq<Event>): set<CacheKey> {
    if events == [] then {}
    else
      var e := events[|events| - 1];
      Memoizable(table, events[..|events| - 1])
      + if e.Enter? && e.call.password == "" && table(KeyOf(e.call)).None? then {KeyOf(e.call)} else {}
  }

  /** A caller without a passphrase and off the table is accounted for. */
  ghost predicate Accounted(table: Table, keys: set<CacheKey>, thread: Thread) {
    thread.call.password == "" && table(KeyOf(thread.call)).None? ==> KeyOf(thread.call) in keys
  }

  ghost predicate Stored(table: Table, keys: set<CacheKey>, s: State) {
    s.memo.Keys <= keys && forall t :: t in s.threads ==> Accounted(table, keys, s.threads[t])
  }

  lemma StepKeepsStored(table: Table, derive: Derivation, s: State, e: Event, keys: set<CacheKey>)
    requires Invariant(table, derive, s) && Stored(table, keys, s)
    requires e.Enter? ==> Accounted(table, keys, Looking(e.call))
    ensures Stored(table, keys, Step(table, derive, s, e))
  {
    if e.t in s.threads && s.threads[e.t].Inserting? && e.Insert? {
      var call := s.threads[e.t].call;
      assert Accounted(table, keys, s.threads[e.t]) && ThreadKeeps(table, derive, s.threads[e.t]);
      assert Inserted(s.memo, e.evicted, call, s.threads[e.t].keys).Keys <= s.memo.Keys + {KeyOf(call)};
    }
  }

  lemma MoreKeys(table: Table, keys: set<CacheKey>, more: set<CacheKey>, s: State)
    requires Stored(table, keys, s) && keys <= more
    ensures Stored(table, more, s)
  {
    forall t | t in s.threads ensures Accounted(table, more, s.threads[t]) {
      assert Accounted(table, keys, s.threads[t]);
    }
  }

  /** The memo holds, and its callers are about to store, only keys asked for without a passphrase and off the table. */
  lemma {:induction false} OnlyMemoizableIsStored(table: Table, derive: Derivation, events: seq<Event>)
    requires Correct(derive, table)
    ensures Stored(table, Memoizable(table, events), Run(table, derive, events))
  {
    if events != [] {
      var init := events[..|events| - 1];
      OnlyMemoizableIsStored(table, derive, init);
      RunKeepsInvariant(table, derive, init);
      MoreKeys(table, Memoizable(table, init), Memoizable(table, events), Run(table, derive, init));
      StepKeepsStored(table, derive, Run(table, derive, init), events[|events| - 1], Memoizable(table, events));
    }
  }

  /** No step of a caller with a passphrase touches the memo. */
  lemma PassphraseIsNeverStored(table: Table, derive: Derivation, events: seq<Event>, e: Event)
    requires Correct(derive, table)
    requires var s := Run(table, derive, events); e.t in s.threads && s.threads[e.t].call.password != ""
    ensures var s := Run(table, derive, events); Step(table, derive, s, e).memo == s.memo
  {
    RunKeepsInvariant(table, derive, events);
  }

  /** While fewer keys than the limit have been asked for, nothing that is stored leaves. */
  lemma {:induction false} NothingLeavesBelowTheLimit(table: Table, derive: Derivation, events: seq<Event>, n: nat,
      key: CacheKey)
    requires Correct(derive, table) && n <= |events| && |Memoizable(table, events)| < CACHE_LIMIT
    requires key in Run(table, derive, events[..n]).memo
    ensures key in Run(table, derive, events).memo
    decreases |events|
  {
    if n == |events| {
      assert events[..n] == events;
    } else {
      var init := events[..|events| - 1];
      CardinalityOfSubset(Memoizable(table, init), Memoizable(table, events));
      assert init[..n] == events[..n];
      NothingLeavesBelowTheLimit(table, derive, init, n, key);
      OnlyMemoizableIsStored(table, derive, init);
      FewAreStored(Run(table, derive, init).memo, Memoizable(table, init));
      StepKeepsEntries(table, derive, Run(table, derive, init), events[|events| - 1], key);
    }
  }

  lemma FewAreStored(memo: Memo, keys: set<CacheKey>)
    requires memo.Keys <= keys
    ensures |memo| <= |keys|
  {
    CardinalityOfSubset(memo.Keys, keys);
    assert |memo.Keys| == |memo|;
  }

  lemma StepKeepsEntries(table: Table, derive: Derivation, s: State, e: Event, key: CacheKey)
    requires |s.memo| < CACHE_LIMIT && key in s.memo
    ensures key in Step(table, derive, s, e).memo
  {
  }

  // ---------------------------------------------------------------- one caller from beginning to end

  function After(table: Table, derive: Derivation, s: State, events: seq<Event>): State {
    if events == [] then s
    else Step(table, derive, After(table, derive, s, events[..|events| - 1]), events[|events| - 1])
  }

  lemma FourSteps(table: Table, derive: Derivation, s: State, a: Event, b: Event, c: Event, d: Event)
    ensures After(table, derive, s, [a, b, c, d]) ==
              Step(table, derive, Step(table, derive, Step(table, derive, Step(table, derive, s, a), b), c), d)
  {
    assert [a, b, c, d][..3] == [a, b, c] && [a, b, c][..2] == [a, b] && [a, b][..1] == [a] && [a][..0] == [];
    assert After(table, derive, s, []) == s;
    assert After(table, derive, s, [a]) == Step(table, derive, s, a);
    assert After(table, derive, s, [a, b]) == Step(table, derive, Step(table, derive, s, a), b);
  }

  /** Caller `t` stands there. */
  function With(s: State, t: nat, thread: Thread): State {
    s.(threads := s.threads[t := thread])
  }

  lemma LookUpStep(table: Table, derive: Derivation, s: State, t: nat, call: Call)
    ensures Step(table, derive, With(s, t, Looking(call)), LookUp(t)) ==
              With(s, t, LookedUp(table, derive, s.memo, call))
  {
  }

  lemma DeriveStep(table: Table, derive: Derivation, s: State, t: nat, thread: Thread)
    requires thread.Deriving? || thread.Done?
    ensures Step(table, derive, With(s, t, thread), Derive(t)) ==
              With(s, t, if thread.Done? then thread else Derived(derive, thread.call))
  {
  }

  lemma InsertStep(table: Table, derive: Derivation, s: State, t: nat, thread: Thread, evicted: CacheKey)
    requires thread.Inserting? || thread.Done?
    requires |s.memo| >= CACHE_LIMIT ==> evicted in s.memo
    ensures Step(table, derive, With(s, t, thread), Insert(t, evicted)) ==
            if thread.Done? then With(s, t, thread)
            else With(s.(memo := Inserted(s.memo, evicted, thread.call, thread.keys)), t,
                      Done(thread.call, Success(thread.keys)))
  {
  }

  /** A new caller whom nobody interrupts is back after entering, looking up, deriving and inserting, at any moment.
      With a passphrase, or with an answer in the table or the memo, or if deriving fails, the memo is what it was;
      otherwise it gets the derived keys, in the place of one other entry if it was full. */
  lemma EveryCallEnds(table: Table, derive: Derivation, s: State, t: nat, call: Call, evicted: CacheKey)
    requires Correct(derive, table) && Invariant(table, derive, s) && t !in s.threads
    requires |s.memo| >= 1024 ==> evicted in s.memo
    ensures var after := After(table, derive, s, [Enter(t, call), LookUp(t), Derive(t), Insert(t, evicted)]);
            var key := CacheKey(call.phrase, call.derivation);
            && after.threads == s.threads[t := Done(call, derive(call))]
            && after.memo ==
                 if call.password != "" || table(key).Some? || key in s.memo || derive(call).Failure? then s.memo
                 else if |s.memo| >= 1024 then (s.memo - {evicted})[key := derive(call).value]
                 else s.memo[key := derive(call).value]
  {
    FourSteps(table, derive, s, Enter(t, call), LookUp(t), Derive(t), Insert(t, evicted));
    var found := LookedUp(table, derive, s.memo, call);
    LookUpStep(table, derive, s, t, call);
    LookedUpKeeps(table, derive, s.memo, call);
    DeriveStep(table, derive, s, t, found);
    InsertStep(table, derive, s, t, if found.Done? then found else Derived(derive, call), evicted);
  }

  /** Where the table or the memo has the answer, looking up is enough: nothing is derived, even if deriving again would
      answer something else. */
  lemma HitIsNotDerived(table: Table, derive: Derivation, memo: Memo, call: Call)
    requires call.password == ""
    ensures var key := CacheKey(call.phrase, call.derivation);
            LookedUp(table, derive, memo, call) ==
              if table(key).Some? then Done(call, Success(table(key).value))
              else if key in memo then Done(call, Success(memo[key]))
              else Deriving(call)
  {
  }

  // ---------------------------------------------------------------- the program, one caller at a time

  class Cache {
    var memo: Memo

    constructor ()
      ensures memo == map[]
    {
      memo := map[];
    }

    /** Inserts, evicting an arbitrary entry first if the map is full. */
    method Memoize(key: CacheKey, keys: Keys)
      modifies this
      ensures key in memo && memo[key] == keys
      ensures exists evicted, room :: MadeRoom(old(memo), evicted, room) && memo == room[key := keys]
      ensures |old(memo)| < 1024 ==> memo == old(memo)[key := keys]
      ensures |old(memo)| >= 1024 ==>
                exists evicted :: evicted in old(memo) && memo == (old(memo) - {evicted})[key := keys]
      ensures |old(memo)| <= CACHE_LIMIT ==> |memo| <= CACHE_LIMIT
    {
      ghost var before := memo;
      ghost var evicted := key;
      if |memo| >= CACHE_LIMIT {
        assert memo != map[];
        var evict :| evict in memo;
        evicted := evict;
        RemovingOne(memo, evict);
        memo := memo - {evict};
      }
      assert MadeRoom(before, evicted, memo);
      AddingOne(memo, key, keys);
      memo := memo[key := keys];
    }

    /** Answers what deriving alone would answer. */
    method GetKeys(call: Call, table: Table, derive: Derivation) returns (outcome: Outcome)
      requires Correct(derive, table) && Faithful(derive, memo)
      modifies this
      ensures outcome == derive(call) && Faithful(derive, memo)
      ensures call.password != "" || outcome.Failure? || KeyOf(call) in old(memo) ==> memo == old(memo)
      ensures call.password == "" && outcome.Success? && table(KeyOf(call)).None? ==> KeyOf(call) in memo
    {
      if call.password != "" {
        return derive(call);
      }
      var key := KeyOf(call);
      assert Bare(key) == call;
      if table(key).Some? {
        return Success(table(key).value);
      }
      if key in memo {
        return Success(memo[key]);
      }
      outcome := derive(call);
      if outcome.Success? {
        Memoize(key, outcome.value);
      }
    }
  }
}
