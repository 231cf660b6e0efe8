/** Configuration options and their inheritance (src/config/option.h). */
module Options {
  import opened MergePatch

  datatype InheritMode = KOverride | KAppend

  /** What an option holds, apart from its names. */
  datatype Setting<T> = Setting(value: T, isDeclared: bool, hasValue: bool)

  /** `override`: what an option becomes when it inherits from another one. */
  function Overridden<T>(own: Setting<T>, from: Setting<T>, mode: InheritMode, append: (T, T) -> T): Setting<T> {
    if from.isDeclared && mode == KAppend then Setting(append(own.value, from.value), true, true)
    else if !own.isDeclared && from.isDeclared then Setting(from.value, true, true)
    else own
  }

  /** The overload of `append_value` that the type of the value selects is the field `append`. */
  class ConfigOption<T> {
    var value: T
    var isDeclared: bool
    var hasValue: bool
    const inheritanceMode: InheritMode
    const append: (T, T) -> T

    constructor (none: T, mode: InheritMode, append: (T, T) -> T)
      ensures State() == Setting(none, false, false) && inheritanceMode == mode && this.append == append
    {
      value, isDeclared, hasValue := none, false, false;
      inheritanceMode, this.append := mode, append;
    }

    constructor WithValue(initial: T, mode: InheritMode, append: (T, T) -> T)
      ensures State() == Setting(initial, false, true) && inheritanceMode == mode && this.append == append
    {
      value, isDeclared, hasValue := initial, false, true;
      inheritanceMode, this.append := mode, append;
    }

    ghost function State(): Setting<T>
      reads this
    {
      Setting(value, isDeclared, hasValue)
    }

    method Set(v: T)
      modifies this
      ensures State() == Setting(v, true, true)
    {
      value := v;
      isDeclared := true;
      hasValue := true;
    }

    /** The other option may be this one. */
    method Override(o: ConfigOption<T>)
      modifies this
      ensures State() == Overridden(old(State()), old(o.State()), inheritanceMode, append)
    {
      if o.isDeclared && inheritanceMode == KAppend {
        value := append(value, o.value);
        isDeclared := true;
        hasValue := true;
      } else if !isDeclared && o.isDeclared {
        Set(o.value);
      }
    }
  }

  // ---------- The overloads of append_value ----------

  function Replace<T>(l: T, r: T): T {
    r
  }

  function AppendVector<T>(l: seq<T>, r: seq<T>): seq<T> {
    l + r
  }

  /** `insert` leaves the keys alone that are there already. */
  function AppendMap<K, V>(l: map<K, V>, r: map<K, V>): map<K, V> {
    r + l
  }

  /** The section of the configuration for PlantUML. */
  datatype Plantuml = Plantuml(before: seq<string>, after: seq<string>, cmd: string, style: map<string, string>)

  /** `plantuml::append`, which the overload for that section calls. */
  function AppendPlantuml(l: Plantuml, r: Plantuml): Plantuml {
    l.(before := AppendVector(l.before, r.before), after := AppendVector(l.after, r.after),
       cmd := if l.cmd == "" then r.cmd else l.cmd)
  }

  // ---------- Which value an option ends with ----------

  /**
   * In override mode the first declared option gives the value: the own one, else the
   * inherited one. When neither is declared the own default stays as it is.
   */
  lemma FirstDeclaredWins<T>(own: Setting<T>, from: Setting<T>, append: (T, T) -> T)
    ensures var r := Overridden(own, from, KOverride, append);
            && (own.isDeclared ==> r == own)
            && (!own.isDeclared && from.isDeclared ==> r == Setting(from.value, true, true))
            && (!own.isDeclared && !from.isDeclared ==> r == own)
  {
  }

  /** In append mode a declared option is combined with, whether or not the own one is declared; the own value comes first. */
  lemma AppendedWhenDeclared<T>(own: Setting<T>, from: Setting<T>, append: (T, T) -> T)
    ensures var r := Overridden(own, from, KAppend, append);
            && (from.isDeclared ==> r == Setting(append(own.value, from.value), true, true))
            && (!from.isDeclared ==> r == own)
  {
  }

  /** Inheriting from one option after another, the nearest one first. */
  function InheritAll<T>(own: Setting<T>, from: seq<Setting<T>>, append: (T, T) -> T): Setting<T>
    decreases |from|
  {
    if from == [] then own else InheritAll(Overridden(own, from[0], KOverride, append), from[1..], append)
  }

  /** The nearest declared option decides, however many are inherited from: a declared one is never lost to those behind it. */
  lemma {:induction false} NearestDeclaredWins<T>(own: Setting<T>, from: seq<Setting<T>>, append: (T, T) -> T, k: nat)
    requires k <= |from| && forall i :: 0 <= i < k ==> !([own] + from)[i].isDeclared
    requires ([own] + from)[k].isDeclared
    ensures InheritAll(own, from, append).value == ([own] + from)[k].value
    ensures InheritAll(own, from, append).isDeclared
    ensures k == 0 ==> InheritAll(own, from, append) == own
    decreases |from|
  {
    if from != [] {
      FirstDeclaredWins(own, from[0], append);
      var next := Overridden(own, from[0], KOverride, append);
      assert forall i :: 0 < i < |from| ==> ([next] + from[1..])[i] == ([own] + from)[i + 1];
      if k == 0 {
        NearestDeclaredWins(next, from[1..], append, 0);
      } else {
        assert !([own] + from)[0].isDeclared;
        assert k > 1 ==> !([own] + from)[1].isDeclared;
        NearestDeclaredWins(next, from[1..], append, k - 1);
      }
    }
  }

  /** An appended list begins with the own entries, and the inherited ones follow. */
  lemma VectorKeepsOwn<T>(own: Setting<seq<T>>, from: Setting<seq<T>>)
    requires from.isDeclared
    ensures var r := Overridden(own, from, KAppend, AppendVector).value;
            && own.value <= r && r[|own.value|..] == from.value
  {
  }

  /** The same for the directives of the PlantUML section; its command is inherited only when there is none, its styles never. */
  lemma PlantumlKeepsOwn(own: Setting<Plantuml>, from: Setting<Plantuml>)
    requires from.isDeclared
    ensures var r := Overridden(own, from, KAppend, AppendPlantuml).value;
            && own.value.before <= r.before && r.before[|own.value.before|..] == from.value.before
            && own.value.after <= r.after && r.after[|own.value.after|..] == from.value.after
            && (own.value.cmd != "" ==> r.cmd == own.value.cmd) && (own.value.cmd == "" ==> r.cmd == from.value.cmd)
            && r.style == own.value.style
  {
  }

  // ---------- Inheriting twice ----------

  ghost predicate Settles<T(!new)>(own: Setting<T>, from: Setting<T>, mode: InheritMode, append: (T, T) -> T) {
    Overridden(Overridden(own, from, mode, append), from, mode, append) == Overridden(own, from, mode, append)
  }

  /** An option without the append mode inherits the same value however often it is asked to. */
  lemma OverrideSettles<T(!new)>(own: Setting<T>, from: Setting<T>, append: (T, T) -> T)
    ensures Settles(own, from, KOverride, append)
  {
  }

  /** A list grows with every inheritance, unless there is nothing to append. */
  lemma VectorSettles<T(!new)>(own: Setting<seq<T>>, from: Setting<seq<T>>)
    ensures Settles(own, from, KAppend, AppendVector) <==> !from.isDeclared || from.value == []
  {
    if from.isDeclared {
      var once := AppendVector(own.value, from.value);
      assert |AppendVector(once, from.value)| == |once| + |from.value|;
      assert from.value == [] ==> AppendVector(once, from.value) == once;
    }
  }

  /** The directives of the PlantUML section are such lists; its command and styles are settled at once. */
  lemma PlantumlSettles(own: Setting<Plantuml>, from: Setting<Plantuml>)
    ensures Settles(own, from, KAppend, AppendPlantuml) <==>
            !from.isDeclared || (from.value.before == [] && from.value.after == [])
  {
    if from.isDeclared {
      VectorSettles(Setting(own.value.before, true, true), Setting(from.value.before, true, true));
      VectorSettles(Setting(own.value.after, true, true), Setting(from.value.after, true, true));
    }
  }

  /**
   * In append mode without an overload of its own, a value that was declared is
   * lost whenever the inherited option is declared with another one.
   */
  lemma ReplaceKeepsOwnIff<T>(own: Setting<T>, from: Setting<T>)
    ensures Overridden(own, from, KAppend, Replace).value == own.value <==> !from.isDeclared || from.value == own.value
  {
  }

  /** A dictionary keeps its own entries, takes the missing ones, and is then settled. */
  lemma MapSettles<K(!new), V(!new)>(own: Setting<map<K, V>>, from: Setting<map<K, V>>)
    ensures Settles(own, from, KAppend, AppendMap)
    ensures var result := Overridden(own, from, KAppend, AppendMap).value;
            forall key :: key in result.Keys <==> key in own.value.Keys || (from.isDeclared && key in from.value.Keys)
    ensures var result := Overridden(own, from, KAppend, AppendMap).value;
            forall key :: key in result ==>
              result[key] == if key in own.value then own.value[key] else from.value[key]
  {
    if from.isDeclared {
      assert from.value + (from.value + own.value) == from.value + own.value;
    }
  }

  /** User data settles just when no null is in the way. */
  lemma JsonSettles(own: Setting<Json>, from: Setting<Json>)
    ensures Settles(own, from, KAppend, Inherit) <==>
            || !from.isDeclared || !from.value.Obj?
            || Uncontested(Child(own.value), from.value)
  {
    hide Uncontested, Inherit, Child;
    TwiceIsOnce(own.value, from.value);
  }
}
