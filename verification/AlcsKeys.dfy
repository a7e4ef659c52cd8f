/** The server keys of alcs_server.c: a list that a key of higher priority purges of all others. */
module AlcsKeys {
  const KEY_MAXCOUNT := 10
  const KEYPREFIX_LEN := 8

  /** Keys of the device itself have the priority 0, keys from the cloud 2. */
  datatype Key = Key(prefix: string, secret: string, priority: nat)

  datatype Code = Success | InvalidLength | Unsupported

  datatype State = State(keys: seq<Key>, svrCount: int)

  const INITIAL := State([], 0)

  // ---------------------------------------------------------------- steps

  function Purge(keys: seq<Key>, priority: nat): seq<Key> {
    if keys == [] then [] else (if keys[0].priority < priority then [] else [keys[0]]) + Purge(keys[1..], priority)
  }

  predicate HasHigher(keys: seq<Key>, priority: nat) { exists i :: 0 <= i < |keys| && keys[i].priority > priority }

  /** alcs_remove_low_priority_key */
  function DoPurge(s: State, priority: nat): State {
    var kept := Purge(s.keys, priority);
    State(kept, s.svrCount - (|s.keys| - |kept|))
  }

  /** add_svr_key: the count is tested before the purge that might lower it. */
  function DoAdd(s: State, prefix: string, secret: string, priority: nat): (State, Code) {
    if s.svrCount >= KEY_MAXCOUNT || |prefix| != KEYPREFIX_LEN then (s, InvalidLength) else
    var t := DoPurge(s, priority);
    if HasHigher(t.keys, priority) then (t, Unsupported)
    else (State(t.keys + [Key(prefix, secret, priority)], t.svrCount + 1), Success)
  }

  function FirstByPrefix(keys: seq<Key>, prefix: string): (i: nat)
    ensures i <= |keys|
    ensures i < |keys| ==> keys[i].prefix == prefix
    ensures forall j :: 0 <= j < i ==> keys[j].prefix != prefix
  {
    if keys == [] || keys[0].prefix == prefix then 0 else 1 + FirstByPrefix(keys[1..], prefix)
  }

  /** alcs_remove_svr_key */
  function DoRemove(s: State, prefix: string): State {
    var i := FirstByPrefix(s.keys, prefix);
    if i == |s.keys| then s else State(s.keys[..i] + s.keys[i + 1..], s.svrCount - 1)
  }

  datatype Step = Add(prefix: string, secret: string, priority: nat) | Remove(prefix: string)

  function DoStep(s: State, step: Step): State {
    match step
    case Add(prefix, secret, priority) => DoAdd(s, prefix, secret, priority).0
    case Remove(prefix) => DoRemove(s, prefix)
  }

  function Run(s: State, steps: seq<Step>): State
    decreases |steps|
  {
    if steps == [] then s else Run(DoStep(s, steps[0]), steps[1..])
  }

  // ---------------------------------------------------------------- the invariant

  predicate OnePriority(keys: seq<Key>) {
    forall i :: 0 <= i < |keys| ==> keys[i].priority == keys[0].priority
  }

  /** All keys share one priority, and the counter is the length of the list, at most ten. */
  predicate Inv(s: State) { OnePriority(s.keys) && s.svrCount == |s.keys| <= KEY_MAXCOUNT }

  lemma {:induction false} PurgeAll(keys: seq<Key>, p: nat, priority: nat)
    requires forall i :: 0 <= i < |keys| ==> keys[i].priority == p
    ensures Purge(keys, priority) == if p < priority then [] else keys
  {
    if keys != [] {
      PurgeAll(keys[1..], p, priority);
    }
  }

  /** What an add does, in terms of the priority the keys share: a higher one replaces the list, an
      equal one joins it, a lower one is refused; and nothing is added to a full list. */
  lemma {:induction false} AddExactly(s: State, prefix: string, secret: string, priority: nat)
    requires Inv(s)
    ensures var (t, code) := DoAdd(s, prefix, secret, priority);
      && (code == Success <==>
            |s.keys| < 10 && |prefix| == 8 && (s.keys == [] || s.keys[0].priority <= priority))
      && (code == InvalidLength <==> |s.keys| >= 10 || |prefix| != 8)
      && (code == Success ==>
            t.keys == (if s.keys != [] && s.keys[0].priority == priority then s.keys else [])
                      + [Key(prefix, secret, priority)])
      && (code != Success ==> t == s)
      && Inv(t)
  {
    if s.keys != [] {
      PurgeAll(s.keys, s.keys[0].priority, priority);
      assert HasHigher(s.keys, priority) <==> s.keys[0].priority > priority;
    }
    hide Purge;
  }

  /** A remove takes out the first key with that prefix and no other; without one it changes nothing. */
  lemma {:induction false} RemoveExactly(keys: seq<Key>, x: Key, more: seq<Key>, count: int)
    requires forall k :: k in keys ==> k.prefix != x.prefix
    ensures DoRemove(State(keys + [x] + more, count), x.prefix) == State(keys + more, count - 1)
    ensures DoRemove(State(keys, count), x.prefix) == State(keys, count)
  {
    var all, i := keys + [x] + more, FirstByPrefix(keys + [x] + more, x.prefix);
    assert forall j :: 0 <= j < |keys| ==> all[j] == keys[j] && keys[j] in keys;
    assert all[|keys|] == x;
    assert i == |keys|;
    assert all[..i] == keys && all[i + 1..] == more;
    assert FirstByPrefix(keys, x.prefix) == |keys|;
  }

  lemma RemoveKeepsInv(s: State, prefix: string)
    requires Inv(s)
    ensures var t := DoRemove(s, prefix);
      Inv(t) && (t.keys != [] ==> s.keys != [] && t.keys[0].priority == s.keys[0].priority)
  {
  }

  lemma {:induction false} StepKeepsInv(s: State, step: Step)
    requires Inv(s)
    ensures var t := DoStep(s, step);
      Inv(t) && (s.keys != [] && t.keys != [] ==> s.keys[0].priority <= t.keys[0].priority)
  {
    match step
    case Add(prefix, secret, priority) => AddExactly(s, prefix, secret, priority);
    case Remove(prefix) => RemoveKeepsInv(s, prefix);
  }

  predicate NeverEmpties(s: State, steps: seq<Step>)
    decreases |steps|
  {
    s.keys != [] && (steps != [] ==> NeverEmpties(DoStep(s, steps[0]), steps[1..]))
  }

  /** The invariant holds in every reachable state, and the shared priority never falls while there is
      a key in the list. */
  lemma {:induction false} RunKeepsInv(s: State, steps: seq<Step>)
    requires Inv(s)
    ensures Inv(Run(s, steps))
    ensures NeverEmpties(s, steps) ==>
      Run(s, steps).keys != [] && s.keys[0].priority <= Run(s, steps).keys[0].priority
    decreases |steps|
  {
    if steps != [] {
      StepKeepsInv(s, steps[0]);
      hide DoStep;
      RunKeepsInv(DoStep(s, steps[0]), steps[1..]);
      if NeverEmpties(s, steps) {
        var t := DoStep(s, steps[0]);
        assert NeverEmpties(t, steps[1..]);
      }
    }
  }

  /** A key of lower priority never gets in, nor gets another one out. */
  lemma {:induction false} LowerAddChangesNothing(s: State, prefix: string, secret: string, priority: nat)
    requires Inv(s) && s.keys != [] && priority < s.keys[0].priority
    ensures DoAdd(s, prefix, secret, priority).0 == s && DoAdd(s, prefix, secret, priority).1 != Success
  {
    AddExactly(s, prefix, secret, priority);
  }

  /** A higher priority does not help against a full list: ten default keys keep a key of the cloud out,
      although it would replace them all. */
  lemma {:induction false} FullListRefusesCloudKey(secret: string)
    ensures var s := Run(INITIAL, seq(10, _ => Add("default0", "secret", 0)));
      |s.keys| == 10 && DoAdd(s, "cloudkey", secret, 2) == (s, InvalidLength)
  {
    AddsFill(INITIAL, 10, Add("default0", "secret", 0));
  }

  lemma {:induction false} AddsFill(s: State, n: nat, add: Step)
    requires Inv(s) && |s.keys| + n <= KEY_MAXCOUNT && add.Add? && |add.prefix| == KEYPREFIX_LEN
    requires s.keys == [] || s.keys[0].priority == add.priority
    ensures var t := Run(s, seq(n, _ => add)); Inv(t) && |t.keys| == |s.keys| + n
    decreases n
  {
    var steps := seq(n, _ => add);
    if n > 0 {
      AddExactly(s, add.prefix, add.secret, add.priority);
      assert steps[1..] == seq(n - 1, _ => add) && steps[0] == add;
      hide DoAdd;
      AddsFill(DoStep(s, add), n - 1, add);
    }
  }
}
