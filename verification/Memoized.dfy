/** Memoization (src/util/memoized.h). */
module Memoized {
  import opened Strings

  // ---------- What a call does to the cache ----------

  /** A call carries what the function would return if it were called now. */
  datatype Op<K, V> =
    | Call(isComplete: bool, now: V, key: K)
    | Invalidate(key: K)

  datatype Seen<V> = Answer(value: V, ran: bool) | Erased

  datatype Stepped<K, V> = Stepped(cache: map<K, V>, seen: Seen<V>)

  function Step<K, V>(cache: map<K, V>, op: Op<K, V>): Stepped<K, V> {
    match op
    case Call(isComplete, now, key) =>
      if !isComplete then Stepped(cache, Answer(now, true))
      else if key in cache then Stepped(cache, Answer(cache[key], false))
      else Stepped(cache[key := now], Answer(now, true))
    case Invalidate(key) => Stepped(cache - {key}, Erased)
  }

  function After<K, V>(ops: seq<Op<K, V>>): map<K, V> {
    if ops == [] then map[] else Step(After(ops[..|ops| - 1]), ops[|ops| - 1]).cache
  }

  /** What the caller sees of the operation at `j`. */
  function SeenAt<K(==), V>(ops: seq<Op<K, V>>, j: nat): Seen<V>
    requires j < |ops|
  {
    Step(After(ops[..j]), ops[j]).seen
  }

  // ---------- The three class templates ----------

  class General<K(==), V> {
    var cache: map<K, V>

    constructor ()
      ensures cache == map[]
    {
      cache := map[];
    }

    method Memoize(isComplete: bool, f: K -> V, key: K) returns (r: V, ghost ran: bool)
      modifies this
      ensures Stepped(cache, Answer(r, ran)) == Step(old(cache), Call(isComplete, f(key), key))
    {
      ran := false;
      if !isComplete {
        ran := true;
        return f(key), ran;
      }
      if key !in cache {
        ran := true;
        cache := cache[key := f(key)];
      }
      return cache[key], ran;
    }

    method Invalidate(key: K)
      modifies this
      ensures Stepped(cache, Erased) == Step(old(cache), Op.Invalidate(key))
    {
      cache := cache - {key};
    }
  }

  function SlotAsMap<K, V>(key: K, slot: Option<V>): map<K, V> {
    if slot.Some? then map[key := slot.value] else map[]
  }

  class Nullary<V> {
    var value: Option<V>

    constructor ()
      ensures AsMap() == map[]
    {
      value := None;
    }

    function AsMap(): map<(), V>
      reads this
    {
      SlotAsMap((), value)
    }

    method Memoize(isComplete: bool, f: () -> V) returns (r: V, ghost ran: bool)
      modifies this
      ensures Stepped(AsMap(), Answer(r, ran)) == Step(old(AsMap()), Call(isComplete, f(), ()))
    {
      ran := false;
      if !isComplete {
        ran := true;
        return f(), ran;
      }
      if value.None? {
        ran := true;
        value := Some(f());
      }
      return value.value, ran;
    }

    method Invalidate()
      modifies this
      ensures Stepped(AsMap(), Erased) == Step(old(AsMap()), Op.Invalidate(()))
    {
      value := None;
    }
  }

  class ForBool<V> {
    var trueValue: Option<V>
    var falseValue: Option<V>

    constructor ()
      ensures AsMap() == map[]
    {
      trueValue, falseValue := None, None;
    }

    function AsMap(): map<bool, V>
      reads this
    {
      SlotAsMap(true, trueValue) + SlotAsMap(false, falseValue)
    }

    method Memoize(isComplete: bool, f: bool -> V, arg: bool) returns (r: V, ghost ran: bool)
      modifies this
      ensures Stepped(AsMap(), Answer(r, ran)) == Step(old(AsMap()), Call(isComplete, f(arg), arg))
    {
      ran := false;
      if !isComplete {
        ran := true;
        return f(arg), ran;
      }
      var key := arg;
      if key && trueValue.None? {
        ran := true;
        trueValue := Some(f(arg));
      }
      if !key && falseValue.None? {
        ran := true;
        falseValue := Some(f(arg));
      }
      return if key then trueValue.value else falseValue.value, ran;
    }

    method Invalidate(key: bool)
      modifies this
      ensures Stepped(AsMap(), Erased) == Step(old(AsMap()), Op.Invalidate(key))
    {
      if key {
        trueValue := None;
      } else {
        falseValue := None;
      }
    }
  }

  // ---------- What is stored after a run ----------

  predicate CompleteAt<K(==), V>(ops: seq<Op<K, V>>, i: nat, key: K)
    requires i < |ops|
  {
    ops[i].Call? && ops[i].isComplete && ops[i].key == key
  }

  /** No invalidation of the key between the two operations. */
  ghost predicate Quiet<K, V>(ops: seq<Op<K, V>>, i: nat, j: nat, key: K)
    requires i <= j <= |ops|
  {
    forall m :: i <= m < j ==> !(ops[m].Invalidate? && ops[m].key == key)
  }

  /** The operation at `i` is the first complete call for the key since the last invalidation before `j`. */
  ghost predicate StoredFrom<K, V>(ops: seq<Op<K, V>>, i: nat, j: nat, key: K, v: V)
    requires j <= |ops|
  {
    && i < j && CompleteAt(ops, i, key) && Quiet(ops, i, j, key) && ops[i].now == v
    && forall m :: 0 <= m < i && CompleteAt(ops, m, key) ==> !Quiet(ops, m, i, key)
  }

  ghost predicate FromSomewhere<K, V>(ops: seq<Op<K, V>>, j: nat, key: K, v: V)
    requires j <= |ops|
  {
    exists i :: 0 <= i < j && StoredFrom(ops, i, j, key, v)
  }

  /** No complete call for the key has happened since the last invalidation. */
  ghost predicate Cold<K, V>(ops: seq<Op<K, V>>, j: nat, key: K)
    requires j <= |ops|
  {
    forall m :: 0 <= m < j && CompleteAt(ops, m, key) ==> !Quiet(ops, m, j, key)
  }

  lemma QuietStep<K, V>(ops: seq<Op<K, V>>, i: nat, j: nat, key: K)
    requires i <= j < |ops|
    ensures Quiet(ops, i, j + 1, key) <==> Quiet(ops, i, j, key) && !(ops[j].Invalidate? && ops[j].key == key)
  {
  }

  lemma AfterStep<K, V>(ops: seq<Op<K, V>>, j: nat)
    requires j < |ops|
    ensures After(ops[..j + 1]) == Step(After(ops[..j]), ops[j]).cache
  {
    assert ops[..j + 1][..j] == ops[..j];
  }

  /** What is stored is what the function returned on the first complete call since the last invalidation. */
  lemma {:induction false} StoredIs<K, V>(ops: seq<Op<K, V>>, j: nat, key: K)
    requires j <= |ops|
    ensures key !in After(ops[..j]) <==> Cold(ops, j, key)
    ensures key in After(ops[..j]) ==>
              FromSomewhere(ops, j, key, After(ops[..j])[key])
  {
    if j > 0 {
      StoredIs(ops, j - 1, key);
      AfterStep(ops, j - 1);
      StoredStep(ops, j - 1, key);
    }
  }

  lemma QuietNow<K, V>(ops: seq<Op<K, V>>, j: nat, key: K)
    requires j <= |ops|
    ensures Quiet(ops, j, j, key)
  {
  }

  lemma ColdStep<K, V>(ops: seq<Op<K, V>>, j: nat, key: K)
    requires j < |ops|
    ensures Cold(ops, j + 1, key) <==>
            (ops[j].Invalidate? && ops[j].key == key) || (Cold(ops, j, key) && !CompleteAt(ops, j, key))
  {
    hide Quiet;
    QuietNow(ops, j, key);
    QuietStep(ops, j, j, key);
    if !Cold(ops, j, key) {
      var m :| 0 <= m < j && CompleteAt(ops, m, key) && Quiet(ops, m, j, key);
      QuietStep(ops, m, j, key);
    }
    if !Cold(ops, j + 1, key) {
      var m :| 0 <= m < j + 1 && CompleteAt(ops, m, key) && Quiet(ops, m, j + 1, key);
      QuietStep(ops, m, j, key);
    }
  }

  lemma StoredFromStays<K, V>(ops: seq<Op<K, V>>, i: nat, j: nat, key: K, v: V)
    requires j < |ops| && StoredFrom(ops, i, j, key, v) && !(ops[j].Invalidate? && ops[j].key == key)
    ensures StoredFrom(ops, i, j + 1, key, v)
  {
  }

  lemma StoredFromNow<K, V>(ops: seq<Op<K, V>>, j: nat, key: K)
    requires j < |ops| && Cold(ops, j, key) && CompleteAt(ops, j, key)
    ensures StoredFrom(ops, j, j + 1, key, ops[j].now)
  {
  }

  lemma StoredStep<K, V>(ops: seq<Op<K, V>>, j: nat, key: K)
    requires j < |ops|
    requires key !in After(ops[..j]) <==> Cold(ops, j, key)
    requires key in After(ops[..j]) ==>
               FromSomewhere(ops, j, key, After(ops[..j])[key])
    requires After(ops[..j + 1]) == Step(After(ops[..j]), ops[j]).cache
    ensures key !in After(ops[..j + 1]) <==> Cold(ops, j + 1, key)
    ensures key in After(ops[..j + 1]) ==>
              FromSomewhere(ops, j + 1, key, After(ops[..j + 1])[key])
  {
    hide Cold, StoredFrom;
    ColdStep(ops, j, key);
    if key in After(ops[..j + 1]) {
      if key in After(ops[..j]) {
        var i :| 0 <= i < j && StoredFrom(ops, i, j, key, After(ops[..j])[key]);
        StoredFromStays(ops, i, j, key, After(ops[..j])[key]);
      } else {
        StoredFromNow(ops, j, key);
      }
    }
  }

  // ---------- Properties of every run ----------

  /** Nothing is stored for a key before a complete call asked for it. */
  lemma {:induction false} StoredWhenComplete<K, V>(ops: seq<Op<K, V>>, key: K)
    requires key in After(ops)
    ensures exists i :: 0 <= i < |ops| && CompleteAt(ops, i, key) && After(ops)[key] == ops[i].now
  {
    assert ops[..|ops|] == ops;
    StoredIs(ops, |ops|, key);
  }

  /** A complete call runs the function just when it is the first one for its key since the last invalidation. */
  lemma RunsOnce<K, V>(ops: seq<Op<K, V>>, j: nat)
    requires j < |ops| && ops[j].Call?
    ensures SeenAt(ops, j).Answer?
    ensures SeenAt(ops, j).ran <==> !ops[j].isComplete || Cold(ops, j, ops[j].key)
  {
    StoredIs(ops, j, ops[j].key);
  }

  lemma AnswerIs<K, V>(ops: seq<Op<K, V>>, j: nat)
    requires j < |ops| && ops[j].Call?
    ensures !ops[j].isComplete || Cold(ops, j, ops[j].key) ==> SeenAt(ops, j) == Answer(ops[j].now, true)
    ensures ops[j].isComplete && !Cold(ops, j, ops[j].key) ==>
              && SeenAt(ops, j).Answer? && !SeenAt(ops, j).ran && FromSomewhere(ops, j, ops[j].key, SeenAt(ops, j).value)
  {
    StoredIs(ops, j, ops[j].key);
  }

  /** Between invalidations the function returns the same for all complete calls with the same key. */
  ghost predicate Unchanging<K, V>(ops: seq<Op<K, V>>) {
    forall i, j ::
      (0 <= i < j < |ops| && CompleteAt(ops, j, ops[j].key) && CompleteAt(ops, i, ops[j].key)
       && Quiet(ops, i, j, ops[j].key)) ==> ops[i].now == ops[j].now
  }

  ghost predicate Direct<K, V>(ops: seq<Op<K, V>>) {
    forall j :: 0 <= j < |ops| && ops[j].Call? ==> SeenAt(ops, j).Answer? && SeenAt(ops, j).value == ops[j].now
  }

  /** Two complete calls with nothing invalidated between them get the same answer. */
  lemma {:induction false} SameAnswer<K, V>(ops: seq<Op<K, V>>, i: nat, j: nat)
    requires i < j < |ops| && CompleteAt(ops, j, ops[j].key) && CompleteAt(ops, i, ops[j].key)
    requires Quiet(ops, i, j, ops[j].key)
    ensures SeenAt(ops, i).Answer? && SeenAt(ops, j).Answer? && SeenAt(ops, i).value == SeenAt(ops, j).value
  {
    StaysStored(ops, i, j, ops[j].key);
  }

  lemma {:induction false} StaysStored<K, V>(ops: seq<Op<K, V>>, i: nat, j: nat, key: K)
    requires i < j <= |ops| && CompleteAt(ops, i, key) && Quiet(ops, i, j, key)
    ensures key in After(ops[..j]) && SeenAt(ops, i) == Answer(After(ops[..j])[key], SeenAt(ops, i).ran)
  {
    AfterStep(ops, j - 1);
    if i + 1 < j {
      StaysStored(ops, i, j - 1, key);
    }
  }

  /** Memoizing is calling directly, in every run of the calls, just when the function does not change in between. */
  lemma MemoizingIsCalling<K, V>(ops: seq<Op<K, V>>)
    ensures Direct(ops) <==> Unchanging(ops)
  {
    if Unchanging(ops) {
      forall j | 0 <= j < |ops| && ops[j].Call?
        ensures SeenAt(ops, j).Answer? && SeenAt(ops, j).value == ops[j].now
      {
        UnchangingIsDirect(ops, j);
      }
    }
    if Direct(ops) {
      forall i, j | 0 <= i < j < |ops| && CompleteAt(ops, j, ops[j].key) && CompleteAt(ops, i, ops[j].key)
                    && Quiet(ops, i, j, ops[j].key)
        ensures ops[i].now == ops[j].now
      {
        SameAnswer(ops, i, j);
      }
    }
  }

  lemma UnchangingIsDirect<K, V>(ops: seq<Op<K, V>>, j: nat)
    requires Unchanging(ops) && j < |ops| && ops[j].Call?
    ensures SeenAt(ops, j).Answer? && SeenAt(ops, j).value == ops[j].now
  {
    hide SeenAt, Quiet;
    AnswerIs(ops, j);
  }
}
