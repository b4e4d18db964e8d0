/** Compiler fuel: how often an optimisation pass may still fire, from one global pool or
    from a pool of the calling thread (xla/debug_options_flags.cc). */
module CompilerFuel {
  import opened Arithmetic

  type Pool = map<string, int>

  datatype Option<T> = None | Some(value: T)

  const INT64_MAX: int := 0x7FFF_FFFF_FFFF_FFFF
  const INT64_MIN: int := -0x8000_0000_0000_0000

  /** fetch_sub(1) on a 64-bit atomic. */
  function Decrement(x: int): int { if x == INT64_MIN then INT64_MAX else x - 1 }

  lemma DecrementWraps(x: int)
    requires -0x8000_0000_0000_0000 <= x < 0x8000_0000_0000_0000
    ensures -0x8000_0000_0000_0000 <= Decrement(x) < 0x8000_0000_0000_0000
    ensures (x - 1 - Decrement(x)) % 0x1_0000_0000_0000_0000 == 0
  {}

  datatype State = State(initial: Pool, global: Pool, everConsumed: map<string, bool>, threads: map<int, Pool>) {
    /** Every pool key has an `ever_consumed` entry, so the lookup in `ConsumeFuel` succeeds. */
    ghost predicate Inv() {
      && initial.Keys <= everConsumed.Keys && global.Keys <= everConsumed.Keys
      && forall t :: t in threads ==> threads[t].Keys <= everConsumed.Keys
    }

    /** The pool a thread draws from. */
    function PoolOf(t: int): PoolId { if t in threads then Local(t) else Global }

    predicate Exists(id: PoolId) { id.Global? || id.thread in threads }

    function Contents(id: PoolId): Pool
      requires Exists(id)
    {
      match id case Global => global case Local(t) => threads[t]
    }

    function With(id: PoolId, pool: Pool): State {
      match id case Global => this.(global := pool) case Local(t) => this.(threads := threads[t := pool])
    }
  }

  datatype PoolId = Global | Local(thread: int)

  /** Result of one `ConsumeFuel` call; `Crash` is the failing `at` of an absent key. */
  datatype Outcome = Done(state: State, fired: bool, justRanOut: bool) | Crash

  function Consume(s: State, t: int, pass: string): Outcome {
    var id := s.PoolOf(t);
    var pool := s.Contents(id);
    if pass !in pool then Done(s, true, false)
    else if pass !in s.everConsumed then Crash
    else
      var remaining := pool[pass];
      Done(s.With(id, pool[pass := Decrement(remaining)]).(everConsumed := s.everConsumed[pass := true]),
           remaining > 0, remaining == 0)
  }

  function ResetThread(s: State, t: int): State { s.(threads := s.threads[t := s.initial]) }

  // ---- runs ----

  /** Interleaved steps of any threads. */
  datatype Step = Call(thread: int, pass: string) | Reset(thread: int)

  ghost predicate Hits(s: State, step: Step, id: PoolId, pass: string) {
    step.Call? && step.pass == pass && s.PoolOf(step.thread) == id && s.Exists(id) && pass in s.Contents(id)
  }

  function Next(s: State, step: Step): State {
    match step
    case Reset(t) => ResetThread(s, t)
    case Call(t, pass) =>
      var r := Consume(s, t, pass);
      if r.Done? then r.state else s
  }

  lemma StepKeepsInv(s: State, step: Step)
    requires s.Inv()
    ensures Next(s, step).Inv()
    ensures step.Call? ==> Consume(s, step.thread, step.pass).Done?
  {}

  /** A step leaves every pool it does not draw from (or refill) as it was. */
  lemma PoolsIsolated(s: State, step: Step, id: PoolId)
    requires s.Exists(id)
    requires step.Call? ==> s.PoolOf(step.thread) != id
    requires step.Reset? ==> id != Local(step.thread)
    ensures Next(s, step).Exists(id) && Next(s, step).Contents(id) == s.Contents(id)
  {}

  datatype Tally = Tally(calls: nat, fired: nat, ranOut: nat)

  /** Calls that drew on one pool for one pass, how many fired and how many were told that
      the fuel just ran out. */
  ghost function Count(s: State, steps: seq<Step>, id: PoolId, pass: string): Tally
    decreases |steps|
  {
    if steps == [] then Tally(0, 0, 0)
    else
      var rest := Count(Next(s, steps[0]), steps[1..], id, pass);
      if Hits(s, steps[0], id, pass) then
        var r := Consume(s, steps[0].thread, pass);
        Tally(rest.calls + 1,
              rest.fired + (if r.Done? && r.fired then 1 else 0),
              rest.ranOut + (if r.Done? && r.justRanOut then 1 else 0))
      else rest
  }

  ghost function Final(s: State, steps: seq<Step>): State
    decreases |steps|
  {
    if steps == [] then s else Final(Next(s, steps[0]), steps[1..])
  }

  /** In every run every pool key keeps its `ever_consumed` entry, so no call fails. */
  lemma {:induction false} NoCallFails(s: State, steps: seq<Step>, t: int, pass: string)
    requires s.Inv()
    ensures Final(s, steps).Inv() && Consume(Final(s, steps), t, pass).Done?
    decreases |steps|
  {
    if steps != [] {
      StepKeepsInv(s, steps[0]);
      NoCallFails(Next(s, steps[0]), steps[1..], t, pass);
    } else {
      StepKeepsInv(s, Call(t, pass));
    }
  }

  ghost predicate Unnamed(s: State, pass: string) {
    pass !in s.initial && pass !in s.global && forall t :: t in s.threads ==> pass !in s.threads[t]
  }

  /** A pass the flag does not name is never limited, in any run and on any thread. */
  lemma {:induction false} UnnamedForever(s: State, steps: seq<Step>, t: int, pass: string)
    requires Unnamed(s, pass)
    ensures Unnamed(Final(s, steps), pass)
    ensures Consume(Final(s, steps), t, pass) == Done(Final(s, steps), true, false)
    decreases |steps|
  {
    if steps != [] { UnnamedForever(Next(s, steps[0]), steps[1..], t, pass); }
  }

  /** Steps that neither draw from a pool nor refill it leave it as it was, however they
      interleave. */
  lemma {:induction false} PoolUntouched(s: State, steps: seq<Step>, id: PoolId)
    requires s.Exists(id) && Elsewhere(s, steps, id)
    ensures Final(s, steps).Exists(id) && Final(s, steps).Contents(id) == s.Contents(id)
    decreases |steps|
  {
    if steps != [] {
      PoolsIsolated(s, steps[0], id);
      PoolUntouched(Next(s, steps[0]), steps[1..], id);
    }
  }

  ghost predicate Elsewhere(s: State, steps: seq<Step>, id: PoolId)
    decreases |steps|
  {
    steps == [] ||
    (&& (steps[0].Call? ==> s.PoolOf(steps[0].thread) != id) && (steps[0].Reset? ==> id != Local(steps[0].thread))
     && Elsewhere(Next(s, steps[0]), steps[1..], id))
  }

  /** In every interleaving of n calls on one pool for a pass with fuel F >= 0, exactly
      min(n, F) fire and the run-out is reported exactly once if n > F, otherwise never;
      other threads' calls and refills do not matter. The bound is where the 64-bit counter
      would wrap around. */
  lemma {:induction false} FuelIsExact(s: State, steps: seq<Step>, id: PoolId, pass: string)
    requires s.Inv() && s.Exists(id) && pass in s.Contents(id) && s.Contents(id)[pass] >= INT64_MIN
    requires id.Local? ==> Reset(id.thread) !in steps
    requires Count(s, steps, id, pass).calls <= s.Contents(id)[pass] - INT64_MIN
    ensures
      var fuel, n := s.Contents(id)[pass], Count(s, steps, id, pass).calls;
      var end := Final(s, steps);
      && Count(s, steps, id, pass).fired == (if fuel > 0 then Min(n, fuel) else 0)
      && Count(s, steps, id, pass).ranOut == (if 0 <= fuel < n then 1 else 0)
      && end.Inv() && end.Exists(id) && pass in end.Contents(id) && end.Contents(id)[pass] == fuel - n
    decreases |steps|
  {
    if steps != [] {
      StepKeepsInv(s, steps[0]);
      FuelIsExact(Next(s, steps[0]), steps[1..], id, pass);
    }
  }

  /** Calls for a pass by one thread, or by any thread outside a set. */
  function CallsBy(steps: seq<Step>, t: int, pass: string): nat {
    if steps == [] then 0 else (if steps[0] == Call(t, pass) then 1 else 0) + CallsBy(steps[1..], t, pass)
  }

  function CallsOutside(steps: seq<Step>, threads: set<int>, pass: string): nat {
    if steps == [] then 0
    else (if steps[0].Call? && steps[0].pass == pass && steps[0].thread !in threads then 1 else 0)
         + CallsOutside(steps[1..], threads, pass)
  }

  /** A thread that has refilled draws from its own pool only, whatever the others do. */
  lemma {:induction false} ThreadDrawsLocally(s: State, steps: seq<Step>, t: int, pass: string)
    requires s.Inv() && t in s.threads && pass in s.threads[t] && Reset(t) !in steps
    ensures Count(s, steps, Local(t), pass).calls == CallsBy(steps, t, pass)
    decreases |steps|
  {
    if steps != [] {
      StepKeepsInv(s, steps[0]);
      ThreadDrawsLocally(Next(s, steps[0]), steps[1..], t, pass);
    }
  }

  /** Without refills the threads that have not refilled, and only they, share the global pool. */
  lemma {:induction false} OthersShareGlobally(s: State, steps: seq<Step>, pass: string)
    requires s.Inv() && pass in s.global && forall k :: 0 <= k < |steps| ==> steps[k].Call?
    ensures Count(s, steps, Global, pass).calls == CallsOutside(steps, s.threads.Keys, pass)
    decreases |steps|
  {
    if steps != [] {
      StepKeepsInv(s, steps[0]);
      assert Next(s, steps[0]).threads.Keys == s.threads.Keys;
      OthersShareGlobally(Next(s, steps[0]), steps[1..], pass);
    }
  }

  /** A refilled thread's n calls fire min(n, F) times, where F is what the flag says. */
  lemma {:induction false} FuelPerThread(s: State, steps: seq<Step>, t: int, pass: string)
    requires s.Inv() && pass in s.initial && 0 <= s.initial[pass] <= INT64_MAX && Reset(t) !in steps
    requires CallsBy(steps, t, pass) <= s.initial[pass] - INT64_MIN
    ensures Count(ResetThread(s, t), steps, Local(t), pass).fired == Min(CallsBy(steps, t, pass), s.initial[pass])
  {
    ThreadDrawsLocally(ResetThread(s, t), steps, t, pass);
    FuelIsExact(ResetThread(s, t), steps, Local(t), pass);
  }

  /** Calls that drew on any pool for `pass`. */
  ghost predicate Drawn(s: State, steps: seq<Step>, pass: string)
    decreases |steps|
  {
    steps != [] && ((steps[0].Call? && Hits(s, steps[0], s.PoolOf(steps[0].thread), pass))
                    || Drawn(Next(s, steps[0]), steps[1..], pass))
  }

  /** The never-consumed warning is exact: the mark is set exactly by a call that drew fuel. */
  lemma {:induction false} EverConsumedIsExact(s: State, steps: seq<Step>, pass: string)
    requires s.Inv() && pass in s.everConsumed
    ensures pass in Final(s, steps).everConsumed
    ensures Final(s, steps).everConsumed[pass] <==> s.everConsumed[pass] || Drawn(s, steps, pass)
    decreases |steps|
  {
    if steps != [] {
      StepKeepsInv(s, steps[0]);
      EverConsumedIsExact(Next(s, steps[0]), steps[1..], pass);
    }
  }

  // ---- the flag setter ----

  function Split(s: string, c: char): (parts: seq<string>)
    ensures |parts| >= 1
  {
    if s == [] then [[]]
    else
      var rest := Split(s[1..], c);
      if s[0] == c then [[]] + rest else [[s[0]] + rest[0]] + rest[1..]
  }

  /** The parts, with the separator between them. */
  function Join(parts: seq<string>, c: char): string {
    if |parts| == 0 then [] else if |parts| == 1 then parts[0] else parts[0] + [c] + Join(parts[1..], c)
  }

  ghost predicate FreeOf(parts: seq<string>, c: char) {
    forall k :: 0 <= k < |parts| ==> c !in parts[k]
  }

  lemma {:induction false} NoSeparator(s: string, c: char)
    requires c !in s
    ensures Split(s, c) == [s]
    decreases |s|
  {
    if s != [] {
      NoSeparator(s[1..], c);
      assert [s[0]] + s[1..] == s;
    }
  }

  /** Splitting is the inverse of joining: no part contains the separator, and putting it back
      between the parts gives the text. */
  lemma {:induction false} JoinOfSplit(s: string, c: char)
    ensures FreeOf(Split(s, c), c) && Join(Split(s, c), c) == s
  {
    if s != [] {
      JoinOfSplit(s[1..], c);
      var rest := Split(s[1..], c);
      if s[0] == c {
        assert ([[]] + rest)[1..] == rest && [] + [c] == [c];
      } else {
        var parts := [[s[0]] + rest[0]] + rest[1..];
        assert parts[1..] == rest[1..];
        if |rest| > 1 { ConcatThree([s[0]], rest[0], [c], Join(rest[1..], c)); }
      }
      assert [s[0]] + s[1..] == s;
    }
  }

  lemma ConcatThree(a: string, b: string, c: string, d: string)
    ensures a + (b + c + d) == (a + b) + c + d
  {}

  lemma {:induction false} SplitOfJoin(parts: seq<string>, c: char)
    requires |parts| >= 1 && FreeOf(parts, c)
    ensures Split(Join(parts, c), c) == parts
    decreases |parts|
  {
    if |parts| == 1 {
      NoSeparator(parts[0], c);
      assert parts == [parts[0]];
    } else {
      SplitOfJoin(parts[1..], c);
      SplitAtFirst(parts[0], c, Join(parts[1..], c));
      assert parts == [parts[0]] + parts[1..];
    }
  }

  lemma {:induction false} SplitAtFirst(a: string, c: char, b: string)
    requires c !in a
    ensures Split(a + [c] + b, c) == [a] + Split(b, c)
    decreases |a|
  {
    var s := a + [c] + b;
    if a == [] {
      assert s[1..] == b;
    } else {
      SplitAtFirst(a[1..], c, b);
      assert s[1..] == a[1..] + [c] + b && [a[0]] + a[1..] == a;
      var rest := [a[1..]] + Split(b, c);
      assert rest[1..] == Split(b, c);
    }
  }

  /** The pools described by `tokens`, up to the first malformed one; for a repeated pass
      the first value stands. */
  ghost function Described(tokens: seq<string>, atoi: string -> Option<int>, pool: Pool): (r: (Pool, bool))
    ensures pool.Keys <= r.0.Keys
    decreases |tokens|
  {
    if tokens == [] then (pool, true)
    else
      var kv := Split(tokens[0], '=');
      if |kv| != 2 || atoi(kv[1]).None? then (pool, false)
      else Described(tokens[1..], atoi, if kv[0] in pool then pool else pool[kv[0] := atoi(kv[1]).value])
  }

  ghost function Pools(text: string, atoi: string -> Option<int>): Pool { Described(Split(text, ','), atoi, map[]).0 }

  /** The token reads `pass`, an equals sign, and a text that stands for `fuel`. */
  ghost predicate Gives(token: string, atoi: string -> Option<int>, pass: string, fuel: int) {
    exists text :: '=' !in pass && '=' !in text && token == pass + ['='] + text && atoi(text) == Some(fuel)
  }

  ghost predicate GoodToken(token: string, atoi: string -> Option<int>) {
    exists pass, fuel :: Gives(token, atoi, pass, fuel)
  }

  /** All tokens up to `i` are well-formed and the one at `i` is the first to name `pass`. */
  ghost predicate FirstGives(tokens: seq<string>, atoi: string -> Option<int>, i: int, pass: string, fuel: int) {
    && 0 <= i < |tokens| && Gives(tokens[i], atoi, pass, fuel)
    && (forall j :: 0 <= j < i ==> GoodToken(tokens[j], atoi))
    && (forall j, other :: 0 <= j < i ==> !Gives(tokens[j], atoi, pass, other))
  }

  lemma {:induction false} TokenRead(token: string, atoi: string -> Option<int>)
    ensures
      var kv := Split(token, '=');
      if |kv| == 2 && atoi(kv[1]).Some? then
        forall pass, fuel :: Gives(token, atoi, pass, fuel) <==> pass == kv[0] && fuel == atoi(kv[1]).value
      else !GoodToken(token, atoi)
  {
    var kv := Split(token, '=');
    JoinOfSplit(token, '=');
    forall pass, fuel | Gives(token, atoi, pass, fuel)
      ensures |kv| == 2 && pass == kv[0] && atoi(kv[1]) == Some(fuel)
    {
      var text :| '=' !in pass && '=' !in text && token == pass + ['='] + text && atoi(text) == Some(fuel);
      SplitAtFirst(pass, '=', text);
      NoSeparator(text, '=');
    }
    if |kv| == 2 && atoi(kv[1]).Some? {
      assert kv[1..] == [kv[1]] && token == kv[0] + ['='] + kv[1];
      assert Gives(token, atoi, kv[0], atoi(kv[1]).value);
    }
  }

  /** What the tokens say: accepted if all are well-formed; a pass has the fuel of the first
      token that names it, if all before that one are well-formed. */
  lemma {:induction false} DescribedExactly(tokens: seq<string>, atoi: string -> Option<int>, pool: Pool, pass: string, fuel: int)
    ensures
      var (r, ok) := Described(tokens, atoi, pool);
      && (ok <==> forall i :: 0 <= i < |tokens| ==> GoodToken(tokens[i], atoi))
      && (pass in pool ==> r[pass] == pool[pass])
      && (pass !in pool ==> (pass in r && r[pass] == fuel <==> exists i :: FirstGives(tokens, atoi, i, pass, fuel)))
    decreases |tokens|
  {
    if tokens != [] {
      TokenRead(tokens[0], atoi);
      var kv := Split(tokens[0], '=');
      if |kv| == 2 && atoi(kv[1]).Some? {
        var next := if kv[0] in pool then pool else pool[kv[0] := atoi(kv[1]).value];
        assert Gives(tokens[0], atoi, kv[0], atoi(kv[1]).value);
        DescribedExactly(tokens[1..], atoi, next, pass, fuel);
        FirstGivesLater(tokens, atoi, pass, fuel);
        GoodLater(tokens, atoi);
      } else {
        NothingGiven(tokens, atoi, pass, fuel);
      }
    }
  }

  lemma {:induction false} GoodLater(tokens: seq<string>, atoi: string -> Option<int>)
    requires tokens != []
    ensures (forall i :: 0 <= i < |tokens| ==> GoodToken(tokens[i], atoi)) <==>
              GoodToken(tokens[0], atoi) && forall i :: 0 <= i < |tokens| - 1 ==> GoodToken(tokens[1..][i], atoi)
  {
    forall i | 1 <= i < |tokens| ensures tokens[i] == tokens[1..][i - 1] {}
  }

  lemma {:induction false} NothingGiven(tokens: seq<string>, atoi: string -> Option<int>, pass: string, fuel: int)
    requires tokens != [] && !GoodToken(tokens[0], atoi)
    ensures forall i :: !FirstGives(tokens, atoi, i, pass, fuel)
  {}

  /** The first token decides, or else the rest does. */
  lemma {:induction false} FirstGivesLater(tokens: seq<string>, atoi: string -> Option<int>, pass: string, fuel: int)
    requires tokens != [] && GoodToken(tokens[0], atoi)
    ensures (exists i :: FirstGives(tokens, atoi, i, pass, fuel)) <==>
              Gives(tokens[0], atoi, pass, fuel)
              || ((forall other :: !Gives(tokens[0], atoi, pass, other)) && exists i :: FirstGives(tokens[1..], atoi, i, pass, fuel))
  {
    if i :| FirstGives(tokens, atoi, i, pass, fuel) {
      if i > 0 { assert FirstGives(tokens[1..], atoi, i - 1, pass, fuel); }
    }
    if Gives(tokens[0], atoi, pass, fuel) {
      assert FirstGives(tokens, atoi, 0, pass, fuel);
    } else if (forall other :: !Gives(tokens[0], atoi, pass, other)) {
      if i :| FirstGives(tokens[1..], atoi, i, pass, fuel) { assert FirstGives(tokens, atoi, i + 1, pass, fuel); }
    }
  }

  /** The same for a text written as tokens with commas between them. */
  lemma {:induction false} PoolsExactly(tokens: seq<string>, atoi: string -> Option<int>, pass: string, fuel: int)
    requires |tokens| >= 1 && FreeOf(tokens, ',')
    ensures
      var pool := Pools(Join(tokens, ','), atoi);
      pass in pool && pool[pass] == fuel <==> exists i :: FirstGives(tokens, atoi, i, pass, fuel)
  {
    SplitOfJoin(tokens, ',');
    DescribedExactly(tokens, atoi, map[], pass, fuel);
  }

  /** The state after the flag is set: fresh pools and marks; threads keep their old pools. */
  ghost function Set(s: State, text: string, atoi: string -> Option<int>): State {
    var pool := Pools(text, atoi);
    State(pool, pool, map p | p in pool :: false, s.threads)
  }

  /** Threads hold fuel only for passes that the new text names as well. */
  ghost predicate ThreadsCovered(threads: map<int, Pool>, pool: Pool) {
    forall t :: t in threads ==> threads[t].Keys <= pool.Keys
  }

  /** After setting the flag no call fails, on any thread and for any pass, if and only if the
      text names every pass that a thread already holds fuel for. */
  lemma {:induction false} CallsFailExactly(s: State, text: string, atoi: string -> Option<int>)
    ensures (forall t, pass :: Consume(Set(s, text, atoi), t, pass).Done?) <==> ThreadsCovered(s.threads, Pools(text, atoi))
  {
    var u, pool := Set(s, text, atoi), Pools(text, atoi);
    if forall t, pass :: Consume(u, t, pass).Done? {
      forall t | t in s.threads ensures s.threads[t].Keys <= pool.Keys {
        forall pass | pass in s.threads[t] ensures pass in pool { assert Consume(u, t, pass).Done?; }
      }
    }
  }

  /** ... and then none fails in any run that follows. */
  lemma {:induction false} NoCallFailsLater(s: State, text: string, atoi: string -> Option<int>, steps: seq<Step>, t: int, pass: string)
    requires ThreadsCovered(s.threads, Pools(text, atoi))
    ensures Consume(Final(Set(s, text, atoi), steps), t, pass).Done?
  {
    NoCallFails(Set(s, text, atoi), steps, t, pass);
  }

  class Fuel {
    var initial: Pool
    var global: Pool
    var everConsumed: map<string, bool>
    var threads: map<int, Pool>

    ghost function View(): State
      reads this
    {
      State(initial, global, everConsumed, threads)
    }

    /** `setter_for_xla_fuel`. The pools and the marks always name the same passes, even when
        the text is rejected half way; threads that refilled before keep their old pools. */
    method SetFuel(text: string, atoi: string -> Option<int>) returns (ok: bool)
      modifies this
      ensures View() == Set(old(View()), text, atoi) && ok == Described(Split(text, ','), atoi, map[]).1
      ensures (forall t, pass :: Consume(View(), t, pass).Done?) <==> ThreadsCovered(old(threads), Pools(text, atoi))
      ensures View().Inv() <==> ThreadsCovered(old(threads), Pools(text, atoi))
      ensures initial == global && threads == old(threads)
      ensures everConsumed.Keys == global.Keys && forall pass :: pass in everConsumed ==> !everConsumed[pass]
    {
      CallsFailExactly(View(), text, atoi);
      ok := FillPools(text, atoi);
    }

    /** Clears the pools and the marks and fills them from the text. */
    method FillPools(text: string, atoi: string -> Option<int>) returns (ok: bool)
      modifies this
      ensures (global, ok) == Described(Split(text, ','), atoi, map[])
      ensures initial == global && everConsumed == map p | p in global :: false
      ensures threads == old(threads)
    {
      initial, global, everConsumed := map[], map[], map[];
      var tokens := Split(text, ',');
      for i := 0 to |tokens|
        invariant initial == global && everConsumed == map p | p in global :: false
        invariant Described(tokens[i..], atoi, global) == Described(tokens, atoi, map[])
        invariant threads == old(threads)
      {
        assert tokens[i..][1..] == tokens[i + 1..];
        var kv := Split(tokens[i], '=');
        if |kv| != 2 { return false; }
        var fuel := atoi(kv[1]);
        if fuel.None? { return false; }
        if kv[0] !in initial { initial := initial[kv[0] := fuel.value]; }
        if kv[0] !in global { global := global[kv[0] := fuel.value]; }
        if kv[0] !in everConsumed { everConsumed := everConsumed[kv[0] := false]; }
      }
      return true;
    }

    method ResetThreadLocalFuel(t: int)
      modifies this
      ensures View() == ResetThread(old(View()), t) && (old(View()).Inv() ==> View().Inv())
    {
      var pool: Pool := map p | p in initial :: initial[p];
      assert pool == initial;
      threads := threads[t := pool];
    }

    /** `plugin` is the PJRT plugin's switch that turns fuel off altogether. */
    method ConsumeFuel(t: int, pass: string, plugin: bool) returns (fired: bool, justRanOut: bool)
      requires plugin || Consume(View(), t, pass).Done?
      modifies this
      ensures old(View()).Inv() ==> View().Inv()
      ensures plugin ==> View() == old(View()) && fired && !justRanOut
      ensures !plugin ==> Consume(old(View()), t, pass) == Done(View(), fired, justRanOut)
      ensures if t in old(threads) then t in threads && global == old(global) && threads == old(threads)[t := threads[t]]
              else threads == old(threads)
    {
      if plugin { return true, false; }
      justRanOut := false;
      var pool := if t in threads then threads[t] else global;
      if pool == map[] { return true, justRanOut; }
      if pass !in pool { return true, justRanOut; }
      if View().Inv() { StepKeepsInv(View(), Call(t, pass)); }
      everConsumed := everConsumed[pass := true];
      var remaining := pool[pass];
      pool := pool[pass := Decrement(remaining)];
      if t in threads { threads := threads[t := pool]; } else { global := pool; }
      justRanOut := remaining == 0;
      fired := remaining > 0;
    }
  }

  /** Setting the flag to "dce=5", refilling one thread and setting it to the empty text (which
      is rejected, with all pools cleared) makes the thread's next call for "dce" fail. */
  lemma {:induction false} ResettingFlagUnderThreads(s: State, t: int, atoi: string -> Option<int>)
    requires atoi("5") == Some(5)
    ensures
      var held := ResetThread(Set(s, "dce=5", atoi), t);
      && Consume(held, t, "dce") == Done(Next(held, Call(t, "dce")), true, false)
      && Consume(Set(held, "", atoi), t, "dce") == Crash
  {
    OnePassNamed(atoi);
    NothingNamed(atoi);
  }

  lemma {:induction false} OnePassNamed(atoi: string -> Option<int>)
    requires atoi("5") == Some(5)
    ensures Pools("dce=5", atoi) == map["dce" := 5]
  {
    var text := "dce=5";
    NoSeparator(text, ',');
    SplitAtFirst("dce", '=', "5");
    NoSeparator("5", '=');
    assert "dce" + ['='] + "5" == text;
    var empty: Pool := map[];
    var tokens := [text];
    assert tokens[1..] == [] && Described(tokens, atoi, empty) == Described(tokens[1..], atoi, empty["dce" := 5]);
  }

  lemma {:induction false} NothingNamed(atoi: string -> Option<int>)
    ensures Pools("", atoi) == map[]
  {
    NoSeparator("", ',');
    NoSeparator("", '=');
  }
}
