/** The weak-pointer cache of xla/refcounting_hash_map.h as interleaved atomic steps: a
    mutex-guarded map, shared handles counted outside it, and deleters that destroy the
    value first and only then take the lock. */
module RefcountingHashMaps {

  /** Life of a value: held by handles; condemned when the last handle goes; deleted, with
      its deleter still to take the lock; finished. */
  datatype Phase = Held | Condemned | Deleted | Finished {
    function Rank(): nat {
      match this case Held => 0 case Condemned => 1 case Deleted => 2 case Finished => 3
    }
  }

  datatype Value<K> = Value(key: K, refs: nat, phase: Phase)

  /** `entries` maps keys to weak pointers (value ids); `values` holds every value ever made. */
  datatype State<K> = State(entries: map<K, nat>, values: seq<Value<K>>) {
    predicate Expired(v: nat)
      requires v < |values|
    {
      values[v].refs == 0
    }

    ghost predicate HeldBy(v: nat) { v < |values| && values[v].refs > 0 }

    /** What every interleaving keeps. */
    ghost predicate Inv() {
      && (forall k :: k in entries ==> entries[k] < |values| && values[entries[k]].key == k)
      && (forall v :: 0 <= v < |values| ==> (values[v].refs > 0 <==> values[v].phase == Held))
      && (forall v :: 0 <= v < |values| && values[v].refs > 0 ==>
            values[v].key in entries && entries[values[v].key] == v)
      && (forall k :: k in entries ==> values[entries[k]].phase != Finished)
    }
  }

  /** Atomic steps. `Get` and `Erase` hold the mutex; the others do not. */
  datatype Step<K> = Get(key: K) | Copy(v: nat) | Drop(v: nat) | Delete(v: nat) | Erase(v: nat)

  predicate Enabled<K(==)>(s: State<K>, step: Step<K>) {
    match step
    case Get(_) => true
    case Copy(v) => v < |s.values| && s.values[v].refs > 0
    case Drop(v) => v < |s.values| && s.values[v].refs > 0
    case Delete(v) => v < |s.values| && s.values[v].phase == Condemned
    case Erase(v) => v < |s.values| && s.values[v].phase == Deleted
  }

  /** The value a `Get` hands out: the live one, otherwise a new one. */
  function Returned<K(==)>(s: State<K>, key: K): nat {
    if key in s.entries && s.entries[key] < |s.values| && !s.Expired(s.entries[key]) then s.entries[key] else |s.values|
  }

  function Next<K(==)>(s: State<K>, step: Step<K>): State<K>
    requires Enabled(s, step)
  {
    match step
    case Get(key) =>
      var v := Returned(s, key);
      if v < |s.values| then s.(values := s.values[v := s.values[v].(refs := s.values[v].refs + 1)])
      else State(s.entries[key := v], s.values + [Value(key, 1, Held)])
    case Copy(v) => s.(values := s.values[v := s.values[v].(refs := s.values[v].refs + 1)])
    case Drop(v) =>
      var left := s.values[v].refs - 1;
      s.(values := s.values[v := s.values[v].(refs := left, phase := if left == 0 then Condemned else Held)])
    case Delete(v) => s.(values := s.values[v := s.values[v].(phase := Deleted)])
    case Erase(v) =>
      var key := s.values[v].key;
      var entries := if key in s.entries && s.entries[key] < |s.values| && s.Expired(s.entries[key])
                     then s.entries - {key} else s.entries;
      State(entries, s.values[v := s.values[v].(phase := Finished)])
  }

  // ---- one step ----

  lemma StepKeepsInv<K>(s: State<K>, step: Step<K>)
    requires s.Inv() && Enabled(s, step)
    ensures Next(s, step).Inv()
  {
    match step
    case Get(key) => GetKeepsInv(s, key);
    case Copy(v) => RefsKeepInv(s, v, s.values[v].refs + 1);
    case Drop(v) => if s.values[v].refs > 1 { RefsKeepInv(s, v, s.values[v].refs - 1); }
    case Delete(v) =>
    case Erase(v) => EraseKeepsInv(s, v);
  }

  /** A change of a positive count to a positive count. */
  lemma RefsKeepInv<K>(s: State<K>, v: nat, refs: nat)
    requires s.Inv() && s.HeldBy(v) && refs > 0
    ensures s.(values := s.values[v := s.values[v].(refs := refs)]).Inv()
  {}

  lemma GetKeepsInv<K>(s: State<K>, key: K)
    requires s.Inv()
    ensures Next(s, Get(key)).Inv()
  {
    if Returned(s, key) < |s.values| { RefsKeepInv(s, s.entries[key], s.values[s.entries[key]].refs + 1); }
  }

  lemma EraseKeepsInv<K>(s: State<K>, v: nat)
    requires s.Inv() && Enabled(s, Erase(v))
    ensures Next(s, Erase(v)).Inv()
  {
    var t := Next(s, Erase(v));
    forall k | k in t.entries ensures t.values[t.entries[k]].phase != Finished {
      assert t.entries[k] != v;
    }
  }

  /** No step removes an entry whose value is alive before it. */
  lemma LiveEntryKept<K>(s: State<K>, step: Step<K>, key: K)
    requires s.Inv() && Enabled(s, step) && key in s.entries && s.HeldBy(s.entries[key])
    ensures key in Next(s, step).entries && Next(s, step).entries[key] == s.entries[key]
  {}

  lemma PhasesAdvance<K>(s: State<K>, step: Step<K>, v: nat)
    requires s.Inv() && Enabled(s, step) && v < |s.values|
    ensures v < |Next(s, step).values| && Next(s, step).values[v].key == s.values[v].key
    ensures s.values[v].phase.Rank() <= Next(s, step).values[v].phase.Rank() <= s.values[v].phase.Rank() + 1
  {}

  // ---- whole runs ----

  ghost predicate EnabledRun<K(!new)>(s: State<K>, steps: seq<Step<K>>)
    decreases |steps|
  {
    steps == [] || (Enabled(s, steps[0]) && EnabledRun(Next(s, steps[0]), steps[1..]))
  }

  ghost function Run<K(!new)>(s: State<K>, steps: seq<Step<K>>): State<K>
    requires EnabledRun(s, steps)
    decreases |steps|
  {
    if steps == [] then s else Run(Next(s, steps[0]), steps[1..])
  }

  ghost function Initial<K(!new)>(): State<K> { State(map[], []) }

  lemma {:induction false} RunKeepsInv<K(!new)>(s: State<K>, steps: seq<Step<K>>)
    requires s.Inv() && EnabledRun(s, steps)
    ensures Run(s, steps).Inv()
    decreases |steps|
  {
    if steps != [] {
      StepKeepsInv(s, steps[0]);
      RunKeepsInv(Next(s, steps[0]), steps[1..]);
    }
  }

  /** In every interleaving, all handles held at one time for a key are the same value,
      and asking for that key again returns it without making another. */
  lemma HandlesAgree<K(!new)>(steps: seq<Step<K>>, v: nat, w: nat)
    requires EnabledRun(Initial(), steps)
    requires var s := Run(Initial(), steps); s.HeldBy(v) && s.HeldBy(w) && s.values[v].key == s.values[w].key
    ensures v == w && Returned(Run(Initial(), steps), Run(Initial(), steps).values[v].key) == v
  {
    RunKeepsInv(Initial<K>(), steps);
  }

  /** In every interleaving, no entry with a live value is ever erased. */
  lemma NoLiveEntryErased<K(!new)>(steps: seq<Step<K>>, step: Step<K>, key: K)
    requires EnabledRun(Initial(), steps) && Enabled(Run(Initial(), steps), step)
    requires var s := Run(Initial(), steps); key in s.entries && s.HeldBy(s.entries[key])
    ensures key in Next(Run(Initial(), steps), step).entries
    ensures Next(Run(Initial(), steps), step).entries[key] == Run(Initial(), steps).entries[key]
  {
    RunKeepsInv(Initial<K>(), steps);
    LiveEntryKept(Run(Initial(), steps), step, key);
  }

  /** Once no handles remain and all deleters have finished, the map is empty. */
  lemma QuiescentIsEmpty<K(!new)>(steps: seq<Step<K>>)
    requires EnabledRun(Initial(), steps)
    requires forall v :: 0 <= v < |Run(Initial(), steps).values| ==> Run(Initial(), steps).values[v].phase == Finished
    ensures Run(Initial(), steps).entries == map[]
  {
    RunKeepsInv(Initial<K>(), steps);
    var s := Run(Initial(), steps);
    if k :| k in s.entries { assert false; }
  }

  /** A value that has lost its last handle never gets another: in no continuation is it
      handed out again, so it is destroyed at most once and never while in use. */
  lemma {:induction false} NoResurrection<K(!new)>(s: State<K>, steps: seq<Step<K>>, v: nat)
    requires s.Inv() && EnabledRun(s, steps) && v < |s.values| && s.values[v].phase != Held
    ensures v < |Run(s, steps).values| && Run(s, steps).values[v].refs == 0
    ensures Run(s, steps).values[v].phase.Rank() >= s.values[v].phase.Rank()
    decreases |steps|
  {
    if steps != [] {
      StepKeepsInv(s, steps[0]);
      PhasesAdvance(s, steps[0], v);
      NoResurrection(Next(s, steps[0]), steps[1..], v);
    }
  }

  // ---- counts are the handles that are really out ----

  /** Owners that a step adds to value `v`: one for each handle given out or copied, less one
      for each handle dropped. */
  function OwnersGained<K(==)>(s: State<K>, step: Step<K>, v: nat): int {
    match step
    case Get(key) => if Returned(s, key) == v then 1 else 0
    case Copy(w) => if w == v then 1 else 0
    case Drop(w) => if w == v then -1 else 0
    case _ => 0
  }

  ghost function Owners<K(!new)>(s: State<K>, steps: seq<Step<K>>, v: nat): int
    requires EnabledRun(s, steps)
    decreases |steps|
  {
    if steps == [] then 0 else OwnersGained(s, steps[0], v) + Owners(Next(s, steps[0]), steps[1..], v)
  }

  function Count<K>(s: State<K>, v: nat): nat { if v < |s.values| then s.values[v].refs else 0 }

  lemma CountStep<K>(s: State<K>, step: Step<K>, v: nat)
    requires s.Inv() && Enabled(s, step)
    ensures Count(Next(s, step), v) == Count(s, v) + OwnersGained(s, step, v)
  {}

  lemma CountsAfter<K>(s: State<K>, step: Step<K>)
    requires s.Inv() && Enabled(s, step)
    ensures forall v :: Count(Next(s, step), v) == Count(s, v) + OwnersGained(s, step, v)
  {
    forall v: nat ensures Count(Next(s, step), v) == Count(s, v) + OwnersGained(s, step, v) { CountStep(s, step, v); }
  }

  /** `handle` is the value alive for the key, or a new one if there is none, and gains one owner. */
  ghost predicate HandsOut<K>(was: State<K>, now: State<K>, key: K, handle: nat) {
    && (forall u: nat :: was.HeldBy(u) && was.values[u].key == key ==> handle == u)
    && (was.HeldBy(handle) || handle == |was.values|)
    && forall u: nat :: Count(now, u) == Count(was, u) + if u == handle then 1 else 0
  }

  lemma GetHandsOut<K>(s: State<K>, key: K)
    requires s.Inv()
    ensures HandsOut(s, Next(s, Get(key)), key, Returned(s, key)) && Next(s, Get(key)).entries == s.entries[key := Returned(s, key)]
  {
    CountsAfter(s, Get(key));
  }

  lemma {:induction false} CountsAreOwners<K(!new)>(s: State<K>, steps: seq<Step<K>>, v: nat)
    requires s.Inv() && EnabledRun(s, steps)
    ensures Count(Run(s, steps), v) == Count(s, v) + Owners(s, steps, v)
    decreases |steps|
  {
    if steps != [] {
      CountStep(s, steps[0], v);
      StepKeepsInv(s, steps[0]);
      CountsAreOwners(Next(s, steps[0]), steps[1..], v);
    }
  }

  /** In every run the count of a value is the number of handles given out and copied less those
      dropped, and the value is alive exactly while that number is positive. */
  lemma AliveWhileOwned<K(!new)>(steps: seq<Step<K>>, v: nat)
    requires EnabledRun(Initial<K>(), steps)
    ensures Count(Run(Initial<K>(), steps), v) == Owners(Initial<K>(), steps, v)
    ensures v < |Run(Initial<K>(), steps).values| ==>
              (Run(Initial<K>(), steps).values[v].phase == Held <==> Owners(Initial<K>(), steps, v) > 0)
  {
    CountsAreOwners(Initial<K>(), steps, v);
    RunKeepsInv(Initial<K>(), steps);
  }

  // ---- liveness of the deleters ----

  ghost predicate NoHandles<K>(s: State<K>) {
    forall v :: 0 <= v < |s.values| ==> s.values[v].phase != Held
  }

  /** Deleter steps still to be taken by the first `n` values. */
  function Pending<K>(s: State<K>, n: nat): nat
    requires n <= |s.values|
  {
    if n == 0 then 0 else Pending(s, n - 1) + (3 - s.values[n - 1].phase.Rank())
  }

  function DeleterStep<K>(s: State<K>, v: nat): Step<K>
    requires v < |s.values|
  {
    if s.values[v].phase == Condemned then Delete(v) else Erase(v)
  }

  lemma {:induction false} PendingDrops<K>(s: State<K>, v: nat, n: nat)
    requires n <= |s.values| && v < |s.values|
    requires s.values[v].phase == Condemned || s.values[v].phase == Deleted
    ensures Enabled(s, DeleterStep(s, v)) && n <= |Next(s, DeleterStep(s, v)).values|
    ensures Pending(Next(s, DeleterStep(s, v)), n) == Pending(s, n) - if v < n then 1 else 0
    decreases n
  {
    if n > 0 { PendingDrops(s, v, n - 1); }
  }

  lemma {:induction false} NothingPending<K>(s: State<K>, n: nat) returns (v: nat)
    requires n <= |s.values|
    ensures v == n || (v < n && s.values[v].phase != Finished)
    ensures v == n ==> forall u :: 0 <= u < n ==> s.values[u].phase == Finished
  {
    v := 0;
    while v < n && s.values[v].phase == Finished
      invariant v <= n && forall u :: 0 <= u < v ==> s.values[u].phase == Finished
    {
      v := v + 1;
    }
  }

  /** With all handles gone the pending deleters can always run to completion, and every
      way of doing so empties the map: the steps below are one schedule, `QuiescentIsEmpty`
      covers the rest. */
  lemma {:induction false} DrainsToEmpty<K(!new)>(s: State<K>) returns (steps: seq<Step<K>>)
    requires s.Inv() && NoHandles(s)
    ensures EnabledRun(s, steps) && Run(s, steps).Inv()
    ensures Run(s, steps).entries == map[]
    decreases Pending(s, |s.values|)
  {
    var v := NothingPending(s, |s.values|);
    if v == |s.values| {
      steps := [];
      if k :| k in s.entries { assert false; }
    } else {
      PendingDrops(s, v, |s.values|);
      var step := DeleterStep(s, v);
      StepKeepsInv(s, step);
      var rest := DrainsToEmpty(Next(s, step));
      steps := [step] + rest;
    }
  }

  // ---- the key that a deleter refers to ----

  /** The machine together with the nodes of the hash map. An entry lives in a node, a deleter
      refers to the key inside the node that its value was made in, and erasing the entry frees
      the node. Node numbers are never used again. */
  datatype Heap<K> = Heap(state: State<K>, nodes: map<K, nat>, nodeOf: seq<nat>, nextNode: nat) {
    ghost predicate Inv() {
      && state.Inv() && nodes.Keys == state.entries.Keys && |nodeOf| == |state.values|
      && (forall k :: k in nodes ==> nodes[k] < nextNode && nodeOf[state.entries[k]] == nodes[k])
      && (forall v :: 0 <= v < |nodeOf| ==> nodeOf[v] < nextNode)
    }

    /** The node that holds the key of value `v` is freed. */
    predicate Freed(v: nat)
      requires v < |state.values| == |nodeOf|
    {
      state.values[v].key !in nodes || nodes[state.values[v].key] != nodeOf[v]
    }
  }

  /** The deleter of `v` finds the entry expired and erases it. */
  predicate Erases<K(==)>(s: State<K>, v: nat)
    requires v < |s.values|
  {
    var key := s.values[v].key;
    key in s.entries && s.entries[key] < |s.values| && s.Expired(s.entries[key])
  }

  function NextHeap<K(==)>(h: Heap<K>, step: Step<K>): Heap<K>
    requires Enabled(h.state, step)
  {
    var next := Next(h.state, step);
    match step
    case Get(key) =>
      if Returned(h.state, key) < |h.state.values| then h.(state := next)
      else if key in h.nodes then Heap(next, h.nodes, h.nodeOf + [h.nodes[key]], h.nextNode)
      else Heap(next, h.nodes[key := h.nextNode], h.nodeOf + [h.nextNode], h.nextNode + 1)
    case Erase(v) =>
      Heap(next, if Erases(h.state, v) then h.nodes - {h.state.values[v].key} else h.nodes, h.nodeOf, h.nextNode)
    case _ => h.(state := next)
  }

  lemma HeapStepKeepsInv<K>(h: Heap<K>, step: Step<K>)
    requires h.Inv() && Enabled(h.state, step)
    ensures NextHeap(h, step).Inv() && NextHeap(h, step).state == Next(h.state, step)
  {
    StepKeepsInv(h.state, step);
    match step
    case Get(key) => NodesAfterGet(h, key);
    case Erase(v) => NodesAfterErase(h, v);
    case _ => assert Next(h.state, step).entries == h.state.entries;
  }

  lemma NodesAfterGet<K>(h: Heap<K>, key: K)
    requires h.Inv()
    ensures
      var next := NextHeap(h, Get(key));
      && next.nodes.Keys == next.state.entries.Keys && |next.nodeOf| == |next.state.values|
      && (forall k :: k in next.nodes ==> next.nodes[k] < next.nextNode && next.nodeOf[next.state.entries[k]] == next.nodes[k])
      && (forall v :: 0 <= v < |next.nodeOf| ==> next.nodeOf[v] < next.nextNode)
  {}

  lemma NodesAfterErase<K>(h: Heap<K>, v: nat)
    requires h.Inv() && Enabled(h.state, Erase(v))
    ensures
      var next := NextHeap(h, Erase(v));
      && next.nodes.Keys == next.state.entries.Keys && |next.nodeOf| == |next.state.values|
      && (forall k :: k in next.nodes ==> next.nodes[k] < next.nextNode && next.nodeOf[next.state.entries[k]] == next.nodes[k])
  {}

  /** While a value has handles its node is there. */
  lemma LiveNode<K>(h: Heap<K>, v: nat)
    requires h.Inv() && h.state.HeldBy(v)
    ensures !h.Freed(v)
  {}

  lemma {:induction false} GetReturns<K>(h: Heap<K>, key: K)
    requires h.Inv()
    ensures
      var v, next := Returned(h.state, key), NextHeap(h, Get(key));
      && next.state.HeldBy(v) && next.state.values[v].key == key && |next.nodeOf| == |next.state.values|
      && key in next.state.entries && next.state.entries[key] == v && !next.Freed(v)
  {
    HeapStepKeepsInv(h, Get(key));
    LiveNode(NextHeap(h, Get(key)), Returned(h.state, key));
  }

  /** The heap after a `Get`, with or without a value alive for the key. */
  lemma {:induction false} GetNext<K>(h: Heap<K>, key: K)
    requires h.Inv()
    ensures
      var s, n := h.state, |h.state.values|;
      var nodes := if key in h.nodes then h.nodes else h.nodes[key := h.nextNode];
      NextHeap(h, Get(key)) ==
        if key in s.entries && s.values[s.entries[key]].refs > 0 then
          h.(state := s.(values := s.values[s.entries[key] := s.values[s.entries[key]].(refs := s.values[s.entries[key]].refs + 1)]))
        else
          Heap(State(s.entries[key := n], s.values + [Value(key, 1, Held)]), nodes, h.nodeOf + [nodes[key]],
               if key in h.nodes then h.nextNode else h.nextNode + 1)
  {}

  predicate ReadsFreedKey<K(==)>(h: Heap<K>, step: Step<K>)
    requires Enabled(h.state, step) && |h.nodeOf| == |h.state.values|
  {
    step.Erase? && h.Freed(step.v)
  }

  /** No deleter of the run reads a freed key. */
  ghost predicate KeysAlive<K(!new)>(h: Heap<K>, steps: seq<Step<K>>)
    requires h.Inv() && EnabledRun(h.state, steps)
    decreases |steps|
  {
    if steps == [] then true
    else
      HeapStepKeepsInv(h, steps[0]);
      !ReadsFreedKey(h, steps[0]) && KeysAlive(NextHeap(h, steps[0]), steps[1..])
  }

  /** Whenever a deleter erases an entry, no other value made for that key before has its
      deleter still to take the lock in the rest of the run. */
  ghost predicate Orderly<K(!new)>(s: State<K>, steps: seq<Step<K>>)
    requires EnabledRun(s, steps)
    decreases |steps|
  {
    steps == [] ||
    (&& (steps[0].Erase? && Erases(s, steps[0].v) ==> NoneLeft(s, steps[0].v, steps[1..]))
     && Orderly(Next(s, steps[0]), steps[1..]))
  }

  ghost predicate NoneLeft<K(!new)>(s: State<K>, v: nat, rest: seq<Step<K>>)
    requires v < |s.values|
  {
    forall u :: 0 <= u < |s.values| && u != v && s.values[u].key == s.values[v].key ==> Erase(u) !in rest
  }

  lemma FreedStaysFreed<K>(h: Heap<K>, step: Step<K>, u: nat)
    requires h.Inv() && Enabled(h.state, step) && u < |h.state.values| && h.Freed(u)
    ensures NextHeap(h, step).Inv() && u < |NextHeap(h, step).state.values| && NextHeap(h, step).Freed(u)
  {
    HeapStepKeepsInv(h, step);
    PhasesAdvance(h.state, step, u);
  }

  lemma {:induction false} FinishedNotErased<K(!new)>(s: State<K>, steps: seq<Step<K>>, v: nat)
    requires s.Inv() && EnabledRun(s, steps) && v < |s.values| && s.values[v].phase == Finished
    ensures Erase(v) !in steps
    decreases |steps|
  {
    if steps != [] {
      StepKeepsInv(s, steps[0]);
      PhasesAdvance(s, steps[0], v);
      FinishedNotErased(Next(s, steps[0]), steps[1..], v);
      assert steps == [steps[0]] + steps[1..];
    }
  }

  /** A deleter whose key is gone reads it all the same when its turn comes. */
  lemma {:induction false} FreedKeyIsRead<K(!new)>(h: Heap<K>, steps: seq<Step<K>>, u: nat)
    requires h.Inv() && EnabledRun(h.state, steps) && u < |h.state.values| && h.Freed(u) && Erase(u) in steps
    ensures !KeysAlive(h, steps)
    decreases |steps|
  {
    if steps[0] != Erase(u) {
      HeapStepKeepsInv(h, steps[0]);
      FreedStaysFreed(h, steps[0], u);
      assert steps == [steps[0]] + steps[1..];
      FreedKeyIsRead(NextHeap(h, steps[0]), steps[1..], u);
    }
  }

  lemma {:induction false} AliveIsOrderly<K(!new)>(h: Heap<K>, steps: seq<Step<K>>)
    requires h.Inv() && EnabledRun(h.state, steps) && KeysAlive(h, steps)
    ensures Orderly(h.state, steps)
    decreases |steps|
  {
    if steps != [] {
      HeapStepKeepsInv(h, steps[0]);
      var next, rest := NextHeap(h, steps[0]), steps[1..];
      AliveIsOrderly(next, rest);
      if steps[0].Erase? && Erases(h.state, steps[0].v) {
        var v := steps[0].v;
        forall u | 0 <= u < |h.state.values| && u != v && h.state.values[u].key == h.state.values[v].key
          ensures Erase(u) !in rest
        {
          PhasesAdvance(h.state, steps[0], u);
          if Erase(u) in rest { FreedKeyIsRead(next, rest, u); }
        }
      }
    }
  }

  ghost predicate PendingAlive<K(!new)>(h: Heap<K>, steps: seq<Step<K>>)
    requires h.Inv()
  {
    forall u :: 0 <= u < |h.state.values| && Erase(u) in steps ==> !h.Freed(u)
  }

  lemma {:induction false} PendingStayAlive<K(!new)>(h: Heap<K>, steps: seq<Step<K>>)
    requires h.Inv() && steps != [] && EnabledRun(h.state, steps) && Orderly(h.state, steps) && PendingAlive(h, steps)
    ensures NextHeap(h, steps[0]).Inv() && PendingAlive(NextHeap(h, steps[0]), steps[1..])
  {
    HeapStepKeepsInv(h, steps[0]);
    var next, rest := NextHeap(h, steps[0]), steps[1..];
    forall u | 0 <= u < |next.state.values| && Erase(u) in rest ensures !next.Freed(u) {
      if u < |h.state.values| {
        assert Erase(u) in steps;
        if steps[0] == Erase(u) { FinishedNotErased(next.state, rest, u); }
        NodeStays(h, steps[0], u);
      } else {
        NewNode(h, steps[0]);
      }
    }
  }

  /** Only an erasing deleter of the same key frees a node. */
  lemma {:induction false} NodeStays<K>(h: Heap<K>, step: Step<K>, u: nat)
    requires h.Inv() && Enabled(h.state, step) && u < |h.state.values| && !h.Freed(u)
    requires step.Erase? && Erases(h.state, step.v) ==> h.state.values[u].key != h.state.values[step.v].key
    ensures u < |NextHeap(h, step).state.values| == |NextHeap(h, step).nodeOf| && !NextHeap(h, step).Freed(u)
  {
    HeapStepKeepsInv(h, step);
    PhasesAdvance(h.state, step, u);
  }

  lemma {:induction false} NewNode<K>(h: Heap<K>, step: Step<K>)
    requires h.Inv() && Enabled(h.state, step)
    ensures
      var next := NextHeap(h, step);
      |next.state.values| > |h.state.values| ==>
        |next.state.values| == |h.state.values| + 1 == |next.nodeOf| && !next.Freed(|h.state.values|)
  {
    HeapStepKeepsInv(h, step);
  }

  lemma {:induction false} OrderlyIsAlive<K(!new)>(h: Heap<K>, steps: seq<Step<K>>)
    requires h.Inv() && EnabledRun(h.state, steps) && Orderly(h.state, steps) && PendingAlive(h, steps)
    ensures KeysAlive(h, steps)
    decreases |steps|
  {
    if steps != [] {
      PendingStayAlive(h, steps);
      HeapStepKeepsInv(h, steps[0]);
      OrderlyIsAlive(NextHeap(h, steps[0]), steps[1..]);
    }
  }

  ghost function InitialHeap<K(!new)>(): (h: Heap<K>)
    ensures h.Inv() && h.state == Initial()
  {
    Heap(Initial(), map[], [], 0)
  }

  /** In a run no deleter reads a freed key if and only if no deleter erases an entry while
      another deleter for the same key has yet to take the lock. */
  lemma {:induction false} KeysAliveExactly<K(!new)>(steps: seq<Step<K>>)
    requires EnabledRun(Initial<K>(), steps)
    ensures KeysAlive(InitialHeap<K>(), steps) <==> Orderly(Initial<K>(), steps)
  {
    if KeysAlive(InitialHeap<K>(), steps) { AliveIsOrderly(InitialHeap<K>(), steps); }
    if Orderly(Initial<K>(), steps) { OrderlyIsAlive(InitialHeap<K>(), steps); }
  }

  /** Both values made and dropped; the second one lives in the entry of the first. */
  function BothDropped<K>(key: K, second: Phase): Heap<K> {
    Heap(State(map[key := 1], [Value(key, 0, Condemned), Value(key, 0, second)]), map[key := 0], [0, 0], 1)
  }

  /** The entry and its node are gone; the first deleter has yet to take the lock. */
  function NodeGone<K>(key: K): Heap<K> {
    Heap(State(map[], [Value(key, 0, Condemned), Value(key, 0, Finished)]), map[], [0, 0], 1)
  }

  lemma {:induction false} GoneIsRead<K(!new)>(key: K)
    ensures
      var h, steps := NodeGone(key), [Delete(0)] + [Erase(0)];
      h.Inv() && EnabledRun(h.state, steps) && !KeysAlive(h, steps)
  {
    var h, last := NodeGone(key), [Erase(0)];
    assert last[1..] == [] && EnabledRun(Next(h.state, Delete(0)), last);
    RunFrom(h.state, Delete(0), last);
    FreedKeyIsRead(h, [Delete(0)] + last, 0);
  }

  lemma {:induction false} FirstDeleterLast<K(!new)>(key: K)
    ensures
      var h, steps := BothDropped(key, Condemned), [Delete(1)] + ([Erase(1)] + ([Delete(0)] + [Erase(0)]));
      h.Inv() && EnabledRun(h.state, steps) && !KeysAlive(h, steps)
  {
    var h, g := BothDropped(key, Condemned), BothDropped(key, Deleted);
    GoneIsRead(key);
    assert NextHeap(h, Delete(1)) == g;
    assert NextHeap(g, Erase(1)) == NodeGone(key);
    AliveTail(g, Erase(1), [Delete(0)] + [Erase(0)]);
    AliveTail(h, Delete(1), [Erase(1)] + ([Delete(0)] + [Erase(0)]));
  }

  lemma {:induction false} DroppedTwice<K(!new)>(key: K)
    ensures
      var h1 := NextHeap(InitialHeap<K>(), Get(key));
      var h2 := NextHeap(h1, Drop(0));
      var h3 := NextHeap(h2, Get(key));
      NextHeap(h3, Drop(1)) == BothDropped(key, Condemned)
  {
    var h1 := NextHeap(InitialHeap<K>(), Get(key));
    assert h1 == Heap(State(map[key := 0], [Value(key, 1, Held)]), map[key := 0], [0], 1);
    var h2 := NextHeap(h1, Drop(0));
    assert h2 == Heap(State(map[key := 0], [Value(key, 0, Condemned)]), map[key := 0], [0], 1);
    var h3 := NextHeap(h2, Get(key));
    assert h3 == Heap(State(map[key := 1], [Value(key, 0, Condemned), Value(key, 1, Held)]), map[key := 0], [0, 0], 1);
  }

  /** A value is made and dropped, the key is asked for again before the first deleter takes
      the lock, and the second value's deleter finishes first: it frees the node that the
      first deleter's key reference points into. */
  lemma {:induction false} SecondDeleterFirst<K(!new)>(key: K)
    ensures
      var steps := [Get(key), Drop(0), Get(key), Drop(1), Delete(1), Erase(1), Delete(0), Erase(0)];
      EnabledRun(Initial<K>(), steps) && !KeysAlive(InitialHeap<K>(), steps)
  {
    FirstDeleterLast(key);
    DroppedTwice(key);
    var h0 := InitialHeap<K>();
    var h1 := NextHeap(h0, Get(key));
    HeapStepKeepsInv(h0, Get(key));
    var h2 := NextHeap(h1, Drop(0));
    HeapStepKeepsInv(h1, Drop(0));
    var h3 := NextHeap(h2, Get(key));
    HeapStepKeepsInv(h2, Get(key));
    var rest := [Delete(1)] + ([Erase(1)] + ([Delete(0)] + [Erase(0)]));
    AliveTail(h3, Drop(1), rest);
    AliveTail(h2, Get(key), [Drop(1)] + rest);
    AliveTail(h1, Drop(0), [Get(key)] + ([Drop(1)] + rest));
    AliveTail(h0, Get(key), [Drop(0)] + ([Get(key)] + ([Drop(1)] + rest)));
    assert [Get(key)] + ([Drop(0)] + ([Get(key)] + ([Drop(1)] + rest)))
        == [Get(key), Drop(0), Get(key), Drop(1), Delete(1), Erase(1), Delete(0), Erase(0)];
  }

  lemma AliveTail<K(!new)>(h: Heap<K>, step: Step<K>, rest: seq<Step<K>>)
    requires h.Inv() && Enabled(h.state, step) && EnabledRun(Next(h.state, step), rest)
    ensures NextHeap(h, step).Inv() && EnabledRun(h.state, [step] + rest)
    ensures KeysAlive(h, [step] + rest) ==> KeysAlive(NextHeap(h, step), rest)
  {
    HeapStepKeepsInv(h, step);
    RunFrom(h.state, step, rest);
    assert ([step] + rest)[1..] == rest;
  }

  lemma RunFrom<K(!new)>(s: State<K>, step: Step<K>, rest: seq<Step<K>>)
    requires Enabled(s, step) && EnabledRun(Next(s, step), rest)
    ensures EnabledRun(s, [step] + rest)
  {
    assert ([step] + rest)[1..] == rest;
  }

  // ---- which states and which callers keep the keys ----

  ghost predicate Unfinished<K(!new)>(h: Heap<K>, v: nat) {
    v < |h.state.values| && h.state.values[v].phase != Finished
  }

  /** The deleter of `u` has lost its key already. */
  ghost predicate Orphan<K(!new)>(h: Heap<K>, u: nat)
    requires h.Inv()
  {
    Unfinished(h, u) && h.Freed(u)
  }

  /** Two values of one key whose deleters have both yet to finish. */
  ghost predicate Rivals<K(!new)>(h: Heap<K>, u: nat, v: nat) {
    u != v && Unfinished(h, u) && Unfinished(h, v) && h.state.values[u].key == h.state.values[v].key
  }

  ghost predicate Doomed<K(!new)>(h: Heap<K>)
    requires h.Inv()
  {
    (exists u :: Orphan(h, u)) || (exists u, v :: Rivals(h, u, v))
  }

  ghost predicate GetFree<K(!new)>(steps: seq<Step<K>>) {
    forall k :: 0 <= k < |steps| ==> !steps[k].Get?
  }

  /** Handles and deleters alone can bring about the read of a freed key. */
  ghost predicate Fatal<K(!new)>(h: Heap<K>, steps: seq<Step<K>>)
    requires h.Inv()
  {
    EnabledRun(h.state, steps) && GetFree(steps) && !KeysAlive(h, steps)
  }

  lemma {:induction false} FatalTail<K(!new)>(h: Heap<K>, step: Step<K>, rest: seq<Step<K>>)
    requires h.Inv() && Enabled(h.state, step) && !step.Get? && NextHeap(h, step).Inv() && Fatal(NextHeap(h, step), rest)
    ensures Fatal(h, [step] + rest)
  {
    HeapStepKeepsInv(h, step);
    AliveTail(h, step, rest);
  }

  lemma {:induction false} OrphanReads<K(!new)>(h: Heap<K>, u: nat) returns (steps: seq<Step<K>>)
    requires h.Inv() && Orphan(h, u)
    ensures Fatal(h, steps)
  {
    if h.state.HeldBy(u) { LiveNode(h, u); }
    var last := [Erase(u)];
    assert last[1..] == [];
    if h.state.values[u].phase == Deleted {
      steps := last;
    } else {
      steps := [Delete(u)] + last;
      RunFrom(h.state, Delete(u), last);
    }
    FreedKeyIsRead(h, steps, u);
  }

  function EntryRefs<K(==)>(s: State<K>, key: K): nat {
    if key in s.entries && s.entries[key] < |s.values| then s.values[s.entries[key]].refs else 0
  }

  /** Drops the handles of the key, lets the deleter of `v` erase the entry and leaves `u` behind. */
  lemma {:induction false} RivalsRead<K(!new)>(h: Heap<K>, u: nat, v: nat) returns (steps: seq<Step<K>>)
    requires h.Inv() && Rivals(h, u, v)
    ensures Fatal(h, steps)
    decreases EntryRefs(h.state, h.state.values[v].key), 3 - h.state.values[v].phase.Rank()
  {
    var key := h.state.values[v].key;
    if h.Freed(u) {
      steps := OrphanReads(h, u);
    } else if EntryRefs(h.state, key) > 0 {
      var step := Drop(h.state.entries[key]);
      HeapStepKeepsInv(h, step);
      var rest := RivalsRead(NextHeap(h, step), u, v);
      steps := [step] + rest;
      FatalTail(h, step, rest);
    } else if h.state.values[v].phase == Condemned {
      HeapStepKeepsInv(h, Delete(v));
      var rest := RivalsRead(NextHeap(h, Delete(v)), u, v);
      steps := [Delete(v)] + rest;
      FatalTail(h, Delete(v), rest);
    } else {
      HeapStepKeepsInv(h, Erase(v));
      var rest := OrphanReads(NextHeap(h, Erase(v)), u);
      steps := [Erase(v)] + rest;
      FatalTail(h, Erase(v), rest);
    }
  }

  /** The key is made anew only if all its earlier deleters have finished. */
  ghost predicate PatientStep<K(!new)>(s: State<K>, step: Step<K>) {
    step.Get? && Returned(s, step.key) == |s.values| ==>
      forall v :: 0 <= v < |s.values| && s.values[v].key == step.key ==> s.values[v].phase == Finished
  }

  ghost predicate Patient<K(!new)>(s: State<K>, steps: seq<Step<K>>)
    requires EnabledRun(s, steps)
    decreases |steps|
  {
    steps == [] || (PatientStep(s, steps[0]) && Patient(Next(s, steps[0]), steps[1..]))
  }

  lemma {:induction false} NoNewOrphan<K(!new)>(h: Heap<K>, step: Step<K>, u: nat)
    requires h.Inv() && Enabled(h.state, step) && !Doomed(h) && NextHeap(h, step).Inv()
    ensures !Orphan(NextHeap(h, step), u)
  {
    var next := NextHeap(h, step);
    if Unfinished(next, u) {
      if u < |h.state.values| {
        PhasesAdvance(h.state, step, u);
        assert !Orphan(h, u);
        if step.Erase? { assert !Rivals(h, u, step.v); }
        NodeStays(h, step, u);
      } else {
        NewNode(h, step);
      }
    }
  }

  lemma {:induction false} NoNewRivals<K(!new)>(h: Heap<K>, step: Step<K>, u: nat, v: nat)
    requires h.Inv() && Enabled(h.state, step) && !Doomed(h) && PatientStep(h.state, step) && u < v
    ensures !Rivals(NextHeap(h, step), u, v)
  {
    HeapStepKeepsInv(h, step);
    if Rivals(NextHeap(h, step), u, v) {
      NewNode(h, step);
      PhasesAdvance(h.state, step, u);
      if v < |h.state.values| {
        PhasesAdvance(h.state, step, v);
        assert Rivals(h, u, v);
      }
    }
  }

  lemma {:induction false} StaysUndoomed<K(!new)>(h: Heap<K>, step: Step<K>)
    requires h.Inv() && Enabled(h.state, step) && !Doomed(h) && PatientStep(h.state, step)
    ensures NextHeap(h, step).Inv() && !Doomed(NextHeap(h, step)) && !ReadsFreedKey(h, step)
  {
    HeapStepKeepsInv(h, step);
    if step.Erase? { assert !Orphan(h, step.v); }
    forall u: nat ensures !Orphan(NextHeap(h, step), u) { NoNewOrphan(h, step, u); }
    forall u: nat, v: nat ensures !Rivals(NextHeap(h, step), u, v) {
      if u < v { NoNewRivals(h, step, u, v); }
      if v < u { NoNewRivals(h, step, v, u); }
    }
  }

  lemma {:induction false} PatientIsAlive<K(!new)>(h: Heap<K>, steps: seq<Step<K>>)
    requires h.Inv() && EnabledRun(h.state, steps) && Patient(h.state, steps) && !Doomed(h)
    ensures KeysAlive(h, steps)
    decreases |steps|
  {
    if steps != [] {
      StaysUndoomed(h, steps[0]);
      HeapStepKeepsInv(h, steps[0]);
      PatientIsAlive(NextHeap(h, steps[0]), steps[1..]);
    }
  }

  lemma {:induction false} GetFreeIsPatient<K(!new)>(s: State<K>, steps: seq<Step<K>>)
    requires EnabledRun(s, steps) && GetFree(steps)
    ensures Patient(s, steps)
    decreases |steps|
  {
    if steps != [] { GetFreeIsPatient(Next(s, steps[0]), steps[1..]); }
  }

  /** From a state some continuation without `Get` reads a freed key if and only if two values of
      one key are unfinished, or one is whose key is freed already. */
  lemma {:induction false} DoomedExactly<K(!new)>(h: Heap<K>)
    requires h.Inv()
    ensures Doomed(h) <==> exists steps :: Fatal(h, steps)
  {
    if u :| Orphan(h, u) {
      var steps := OrphanReads(h, u);
    } else if u, v :| Rivals(h, u, v) {
      var steps := RivalsRead(h, u, v);
    } else {
      forall steps ensures !Fatal(h, steps) {
        if EnabledRun(h.state, steps) && GetFree(steps) {
          GetFreeIsPatient(h.state, steps);
          PatientIsAlive(h, steps);
        }
      }
    }
  }

  /** Callers that make a key anew only after its earlier deleters have finished keep every key
      alive, in every interleaving. */
  lemma {:induction false} PatientCallersAreSafe<K(!new)>(steps: seq<Step<K>>)
    requires EnabledRun(Initial<K>(), steps) && Patient(Initial<K>(), steps)
    ensures KeysAlive(InitialHeap<K>(), steps)
  {
    PatientIsAlive(InitialHeap<K>(), steps);
  }

  // ---- the class ----

  class RefcountingHashMap<K(==)> {
    var entries: map<K, nat>
    var values: seq<Value<K>>
    var nodes: map<K, nat>
    var nodeOf: seq<nat>  // what the deleter of each value refers to
    var nextNode: nat

    ghost function View(): Heap<K>
      reads this
    {
      Heap(State(entries, values), nodes, nodeOf, nextNode)
    }

    constructor ()
      ensures View() == Heap(State(map[], []), map[], [], 0) && View().Inv()
    {
      entries, values, nodes, nodeOf, nextNode := map[], [], map[], [], 0;
    }

    /** Under the mutex: the live value for the key, or a new one in its entry. */
    method GetOrCreateIfAbsent(key: K) returns (handle: nat)
      requires View().Inv()
      modifies this
      ensures View() == NextHeap(old(View()), Get(key)) && View().Inv()
      ensures handle == Returned(old(View().state), key) && View().state.HeldBy(handle) && values[handle].key == key
      ensures entries == old(entries)[key := handle] && !View().Freed(handle)
      ensures HandsOut(old(View().state), View().state, key, handle)
    {
      GetHandsOut(View().state, key);
      HeapStepKeepsInv(View(), Get(key));
      GetReturns(View(), key);
      GetNext(View(), key);
      ghost var next := NextHeap(View(), Get(key));
      if key in entries && values[entries[key]].refs > 0 {
        handle := entries[key];
        values := values[handle := values[handle].(refs := values[handle].refs + 1)];
        assert View() == next;
        return;
      }
      handle := |values|;
      if key !in nodes {
        nodes := nodes[key := nextNode];
        nextNode := nextNode + 1;
      }
      entries := entries[key := handle];
      nodeOf := nodeOf + [nodes[key]];
      values := values + [Value(key, 1, Held)];
      assert View() == next;
    }

    /** The deleter's second half, under the mutex: erases the entry if it is still expired.
        It reads the key through its reference, which must still be there. */
    method EraseIfExpired(v: nat)
      requires View().Inv() && Enabled(View().state, Erase(v)) && !ReadsFreedKey(View(), Erase(v))
      modifies this
      ensures View() == NextHeap(old(View()), Erase(v)) && View().Inv()
      ensures values == old(values)[v := old(values)[v].(phase := Finished)]
      ensures
        var key := old(values)[v].key;
        entries == if key in old(entries) && old(values)[old(entries)[key]].refs == 0 then old(entries) - {key} else old(entries)
    {
      HeapStepKeepsInv(View(), Erase(v));
      var key := values[v].key;
      if key in entries && values[entries[key]].refs == 0 {
        entries := entries - {key};
        nodes := nodes - {key};
      }
      values := values[v := values[v].(phase := Finished)];
    }
  }
}
