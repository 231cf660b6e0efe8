/** Setting user data from the command line by dotted paths (src/cli/cli_handler.cc). */
module UserData {
  import opened Strings
  import opened Splitting
  import opened MergePatch
  import Options

  datatype Failure =
    | NotAnObject
    | EmptyArray // `operator[]` with a key throws on an array

  datatype Assigned = Done(tree: Json) | Stuck(why: Failure)

  /** `empty()` of the JSON library. */
  predicate IsEmpty(j: Json) {
    match j
    case Null => true
    case Arr(elements) => elements == []
    case Obj(members) => members == map[]
    case _ => false
  }

  // ---------- One update ----------

  function Assign(j: Json, path: Path, v: Json): Assigned
    decreases path
  {
    if path == [] then Done(v)
    else if j == Arr([]) then Stuck(EmptyArray)
    else if j.Obj? || j.Null? then
      match Assign(Member(j, path[0]), path[1..], v)
      case Done(t) => Done(Obj(Members(j)[path[0] := t]))
      case Stuck(why) => Stuck(why)
    else Stuck(NotAnObject)
  }

  /** The document with another node at a path that is bound. */
  function Put(tree: Json, at: Path, node: Json): Json
    requires At(tree, at).Some?
  {
    if at == [] then node
    else Obj(tree.members[at[0] := Put(tree.members[at[0]], at[1..], node)])
  }

  function Regraft(tree: Json, at: Path, below: Assigned): Assigned
    requires At(tree, at).Some?
  {
    match below
    case Done(t) => Done(Put(tree, at, t))
    case Stuck(why) => Stuck(why)
  }

  /** `&j[key]`: the object with the key present, the value being null if it is new. */
  function WithKey(j: Json, key: string): Json {
    if key in Members(j) then j else Obj(Members(j)[key := Null])
  }

  lemma {:induction false} PutInto(tree: Json, at: Path, key: string, t: Json)
    requires At(tree, at).Some? && (At(tree, at).value.Obj? || At(tree, at).value.Null?)
    ensures var node := At(tree, at).value;
            var grown := Put(tree, at, WithKey(node, key));
            && At(grown, at + [key]) == Some(Member(node, key))
            && Put(grown, at + [key], t) == Put(tree, at, Obj(Members(node)[key := t]))
            && (key in Members(node) ==> grown == tree)
  {
    var node := At(tree, at).value;
    if at == [] {
      assert ([] + [key])[1..] == [];
      assert Members(WithKey(node, key))[key := t] == Members(node)[key := t];
    } else {
      assert (at + [key])[1..] == at[1..] + [key];
      PutInto(tree.members[at[0]], at[1..], key, t);
      PutDeeper(tree, at, key, t);
    }
  }

  lemma PutDeeper(tree: Json, at: Path, key: string, t: Json)
    requires At(tree, at).Some? && (At(tree, at).value.Obj? || At(tree, at).value.Null?) && at != []
    requires var node := At(tree, at).value;
             var inner := tree.members[at[0]];
             var grown := Put(inner, at[1..], WithKey(node, key));
             && At(grown, at[1..] + [key]) == Some(Member(node, key))
             && Put(grown, at[1..] + [key], t) == Put(inner, at[1..], Obj(Members(node)[key := t]))
             && (key in Members(node) ==> grown == inner)
    ensures var node := At(tree, at).value;
            var grown := Put(tree, at, WithKey(node, key));
            && At(grown, at + [key]) == Some(Member(node, key))
            && Put(grown, at + [key], t) == Put(tree, at, Obj(Members(node)[key := t]))
            && (key in Members(node) ==> grown == tree)
  {
    hide WithKey;
    assert (at + [key])[1..] == at[1..] + [key];
    var node := At(tree, at).value;
    var inner := tree.members[at[0]];
    var grown := Put(inner, at[1..], WithKey(node, key));
    var all := Put(tree, at, WithKey(node, key));
    assert all.members == tree.members[at[0] := grown];
    assert all.members[at[0] := Put(grown, at[1..] + [key], t)] ==
           tree.members[at[0] := Put(grown, at[1..] + [key], t)];
    if key in Members(node) {
      assert all.members == tree.members;
    }
  }

  /** The walk has reached `path[..i]`: what is left to do there is what is left of the update. */
  ghost predicate Walking(before: Json, path: Path, v: Json, tree: Json, i: nat) {
    && i <= |path| && At(tree, path[..i]).Some?
    && (tree == before || At(tree, path[..i]) == Some(Null))
    && Assign(before, path, v) == Regraft(tree, path[..i], Assign(At(tree, path[..i]).value, path[i..], v))
  }

  lemma WalkStarts(before: Json, path: Path, v: Json)
    ensures Walking(before, path, v, before, 0)
  {
    assert path[0..] == path;
  }

  lemma WalkTurn(before: Json, path: Path, v: Json, tree: Json, i: nat)
    requires Walking(before, path, v, tree, i) && i < |path|
    requires At(tree, path[..i]).value.Obj? || At(tree, path[..i]).value.Null?
    ensures Walking(before, path, v, Put(tree, path[..i], WithKey(At(tree, path[..i]).value, path[i])), i + 1)
  {
    hide WithKey;
    var node := At(tree, path[..i]).value;
    assert path[..i + 1] == path[..i] + [path[i]];
    assert path[i..][1..] == path[i + 1..];
    var below := Assign(Member(node, path[i]), path[i + 1..], v);
    PutInto(tree, path[..i], path[i], if below.Done? then below.tree else Null);
  }

  lemma WalkStops(before: Json, path: Path, v: Json, tree: Json, i: nat)
    requires Walking(before, path, v, tree, i) && i < |path|
    requires !At(tree, path[..i]).value.Obj? && !At(tree, path[..i]).value.Null?
    ensures tree == before
    ensures Assign(before, path, v) == Stuck(if At(tree, path[..i]).value == Arr([]) then EmptyArray else NotAnObject)
  {
  }

  lemma WalkEnds(before: Json, path: Path, v: Json, tree: Json)
    requires Walking(before, path, v, tree, |path|)
    ensures At(tree, path).Some? && Assign(before, path, v) == Done(Put(tree, path, v))
  {
    assert path[..|path|] == path;
  }

  // ---------- The list of updates ----------

  type Update = (string, string)

  datatype Flow = KContinue | KError | Thrown

  datatype Run = Run(tree: Json, flow: Flow)

  function PathOf(u: Update): Path {
    SplitOf(u.0, ".", true)
  }

  function FlowOf(why: Failure): Flow {
    if why == NotAnObject then KError else Thrown
  }

  /** One update after another, up to the first that fails. */
  function ApplyAll(j: Json, updates: seq<Update>): Run {
    if updates == [] then Run(j, KContinue)
    else
      var u := updates[|updates| - 1];
      var earlier := ApplyAll(j, updates[..|updates| - 1]);
      if earlier.flow != KContinue then earlier
      else
        match Assign(earlier.tree, PathOf(u), Str(u.1))
        case Done(t) => Run(t, KContinue)
        case Stuck(why) => Run(earlier.tree, FlowOf(why))
  }

  lemma ApplyNext(j: Json, updates: seq<Update>, i: nat)
    requires i < |updates| && ApplyAll(j, updates[..i]).flow == KContinue
    ensures ApplyAll(j, updates[..i + 1]) ==
            match Assign(ApplyAll(j, updates[..i]).tree, PathOf(updates[i]), Str(updates[i].1))
            case Done(t) => Run(t, KContinue)
            case Stuck(why) => Run(ApplyAll(j, updates[..i]).tree, FlowOf(why))
  {
    hide PathOf, Assign;
    assert updates[..i + 1][..i] == updates[..i];
  }

  /** Nothing is done after an update that failed. */
  lemma {:induction false} FailureIsFinal(j: Json, updates: seq<Update>, i: nat)
    requires i <= |updates| && ApplyAll(j, updates[..i]).flow != KContinue
    ensures ApplyAll(j, updates) == ApplyAll(j, updates[..i])
    decreases |updates| - i
  {
    hide PathOf, Assign;
    if i == |updates| {
      assert updates[..i] == updates;
    } else {
      assert updates[..i + 1][..i] == updates[..i];
      FailureIsFinal(j, updates, i + 1);
    }
  }

  class CliHandler {
    var userData: seq<Update>
    const config: Options.ConfigOption<Json>

    constructor (config: Options.ConfigOption<Json>, userData: seq<Update>)
      ensures this.config == config && this.userData == userData
    {
      this.config, this.userData := config, userData;
    }

    /** Walks a pointer down the tree, creating keys on the way. The pointer is the path `at` of its node. */
    method SetUserData(path: Path, value: string) returns (flow: Flow)
      modifies config`value
      ensures match Assign(old(config.value), path, Str(value))
              case Done(t) => flow == KContinue && config.value == t
              case Stuck(why) => flow == FlowOf(why) && config.value == old(config.value)
    {
      hide Walking, Assign, Put;
      ghost var before := config.value;
      var at: Path := [];
      var i := 0;
      WalkStarts(before, path, Str(value));
      while i < |path|
        invariant 0 <= i <= |path| && at == path[..i]
        invariant Walking(before, path, Str(value), config.value, i)
      {
        WalkIsThere(before, path, Str(value), config.value, i);
        var node := At(config.value, at).value;
        if !node.Obj? && !IsEmpty(node) {
          WalkStops(before, path, Str(value), config.value, i);
          return KError;
        }
        if node.Arr? {
          WalkStops(before, path, Str(value), config.value, i);
          return Thrown;
        }
        WalkTurn(before, path, Str(value), config.value, i);
        config.value := Put(config.value, at, WithKey(node, path[i]));
        at := at + [path[i]];
        i := i + 1;
      }
      assert at == path;
      WalkEnds(before, path, Str(value), config.value);
      config.value := Put(config.value, at, Str(value));
      return KContinue;
    }

    method AddCustomUserData() returns (flow: Flow)
      modifies config`value
      ensures Run(config.value, flow) == ApplyAll(old(config.value), userData)
    {
      hide ApplyAll, Assign;
      ghost var before := config.value;
      var i := 0;
      ApplyNothing(before, userData);
      while i < |userData|
        invariant 0 <= i <= |userData|
        invariant ApplyAll(before, userData[..i]) == Run(config.value, KContinue)
      {
        var path := Split(userData[i].0, ".", true);
        ApplyNext(before, userData, i);
        var outcome := SetUserData(path, userData[i].1);
        if outcome != KContinue {
          FailureIsFinal(before, userData, i + 1);
          return outcome;
        }
        i := i + 1;
      }
      assert userData[..i] == userData;
      return KContinue;
    }
  }

  lemma WalkIsThere(before: Json, path: Path, v: Json, tree: Json, i: nat)
    requires Walking(before, path, v, tree, i)
    ensures i <= |path| && At(tree, path[..i]).Some?
  {
  }

  lemma ApplyNothing(j: Json, updates: seq<Update>)
    ensures ApplyAll(j, updates[..0]) == Run(j, KContinue)
  {
  }

  // ---------- When an update succeeds ----------

  /** Something at a proper prefix of the path can hold no key. */
  predicate ObstacleAt(j: Json, path: Path, n: nat)
    requires n <= |path|
  {
    At(j, path[..n]).Some? && !At(j, path[..n]).value.Obj? && !At(j, path[..n]).value.Null?
  }

  lemma ObstacleDeeper(j: Json, path: Path, n: nat)
    requires path != [] && n < |path|
    ensures ObstacleAt(j, path, n + 1) <==> ObstacleAt(Member(j, path[0]), path[1..], n)
    ensures ObstacleAt(j, path, n + 1) ==> At(j, path[..n + 1]) == At(Member(j, path[0]), path[1..][..n])
  {
    assert path[..n + 1][1..] == path[1..][..n];
    assert path[0] !in Members(j) ==> At(Null, path[1..][..n]).None? || n == 0;
  }

  lemma ObstacleStep(j: Json, path: Path, n: nat)
    requires n < |path|
    ensures n == 0 ==> (ObstacleAt(j, path, n) <==> !j.Obj? && !j.Null?)
    ensures n > 0 ==> (ObstacleAt(j, path, n) <==> ObstacleAt(Member(j, path[0]), path[1..], n - 1))
    ensures n > 0 && ObstacleAt(j, path, n) ==> j.Obj? && At(j, path[..n]) == At(Member(j, path[0]), path[1..][..n - 1])
  {
    if n > 0 {
      ObstacleDeeper(j, path, n - 1);
    }
  }

  /** An update fails just when a scalar or an array is in its way, and that decides how. */
  lemma {:induction false} AssignFailsIff(j: Json, path: Path, v: Json)
    ensures Assign(j, path, v).Stuck? <==> exists n :: 0 <= n < |path| && ObstacleAt(j, path, n)
    ensures forall n :: 0 <= n < |path| && ObstacleAt(j, path, n) ==>
              Assign(j, path, v) == Stuck(if At(j, path[..n]) == Some(Arr([])) then EmptyArray else NotAnObject)
    decreases path
  {
    hide ObstacleAt;
    if path != [] {
      var below := Assign(Member(j, path[0]), path[1..], v);
      AssignFailsIff(Member(j, path[0]), path[1..], v);
      ObstacleStep(j, path, 0);
      if (j.Obj? || j.Null?) && below.Stuck? {
        var n :| 0 <= n < |path[1..]| && ObstacleAt(Member(j, path[0]), path[1..], n);
        ObstacleStep(j, path, n + 1);
      }
      forall n | 0 <= n < |path| && ObstacleAt(j, path, n)
        ensures Assign(j, path, v) == Stuck(if At(j, path[..n]) == Some(Arr([])) then EmptyArray else NotAnObject)
      {
        ObstacleStep(j, path, n);
        assert n > 0 ==> ObstacleAt(Member(j, path[0]), path[1..], n - 1);
      }
    }
  }

  // ---------- What an update binds every path to ----------

  ghost predicate Binds(j: Json, path: Path, v: Json, t: Json, q: Path) {
    && (path <= q ==> At(t, q) == At(v, q[|path|..]))
    && (q < path ==> At(t, q).Some? && At(t, q).value.Obj?)
    && (!(path <= q) && !(q <= path) ==> At(t, q) == At(j, q))
  }

  lemma AtUpdated(j: Json, key: string, t: Json, q: Path)
    requires q != [] && q[0] == key
    ensures At(Obj(Members(j)[key := t]), q) == At(t, q[1..])
    ensures q[1..] != [] ==> At(j, q) == At(Member(j, key), q[1..])
  {
  }

  lemma BindsBelow(j: Json, path: Path, v: Json, t: Json, q: Path)
    requires path != [] && q != [] && q[0] == path[0]
    requires Binds(Member(j, path[0]), path[1..], v, t, q[1..])
    ensures Binds(j, path, v, Obj(Members(j)[path[0] := t]), q)
  {
    hide At, Member, Members;
    PrefixCons(path, q);
    PrefixCons(q, path);
    AtUpdated(j, path[0], t, q);
    if path <= q {
      assert q[|path|..] == q[1..][|path[1..]|..];
    }
  }

  lemma PrefixCons<T>(a: seq<T>, b: seq<T>)
    requires a != [] && b != [] && a[0] == b[0]
    ensures a <= b <==> a[1..] <= b[1..]
  {
    if a <= b {
      assert a[1..] == b[..|a|][1..] == b[1..][..|a| - 1];
    }
    if a[1..] <= b[1..] {
      assert a == [a[0]] + a[1..];
      assert b[..|a|] == [b[0]] + b[1..][..|a| - 1];
    }
  }

  /** The path holds the value, its prefixes are objects, and paths that are not comparable keep what they had. */
  lemma {:induction false} AssignLookup(j: Json, path: Path, v: Json, q: Path)
    requires Assign(j, path, v).Done?
    ensures Binds(j, path, v, Assign(j, path, v).tree, q)
    decreases path
  {
    if path != [] && q != [] && q[0] == path[0] {
      AssignLookup(Member(j, path[0]), path[1..], v, q[1..]);
      BindsBelow(j, path, v, Assign(Member(j, path[0]), path[1..], v).tree, q);
    } else if path == [] {
      assert q[0..] == q;
    }
  }

  // ---------- What a list of updates binds every path to ----------

  /** The last update that wrote the path or a prefix of it. */
  function Covering(updates: seq<Update>, q: Path): Option<Update> {
    if updates == [] then None
    else
      var u := updates[|updates| - 1];
      if PathOf(u) <= q then Some(u) else Covering(updates[..|updates| - 1], q)
  }

  /** An update wrote something below the path. */
  predicate Below(updates: seq<Update>, q: Path) {
    exists i :: 0 <= i < |updates| && q < PathOf(updates[i])
  }

  lemma PrefixTrans<T>(a: seq<T>, b: seq<T>, c: seq<T>)
    requires a <= b <= c
    ensures a <= c
  {
  }

  lemma {:induction false} CoveringOfItsPath(updates: seq<Update>, q: Path)
    requires Covering(updates, q).Some?
    ensures PathOf(Covering(updates, q).value) <= q
    ensures Covering(updates, PathOf(Covering(updates, q).value)) == Covering(updates, q)
  {
    hide PathOf;
    var u := updates[|updates| - 1];
    if !(PathOf(u) <= q) {
      CoveringOfItsPath(updates[..|updates| - 1], q);
      var c := Covering(updates[..|updates| - 1], q).value;
      if PathOf(u) <= PathOf(c) {
        PrefixTrans(PathOf(u), PathOf(c), q);
      }
    }
  }

  ghost predicate Holds(j: Json, updates: seq<Update>, t: Json, q: Path) {
    match Covering(updates, q)
    case Some(u) => At(t, q) == if PathOf(u) == q then Some(Str(u.1)) else None
    case None => if Below(updates, q) then At(t, q).Some? && At(t, q).value.Obj? else At(t, q) == At(j, q)
  }

  /**
   * After a list of updates that succeeds, a path holds the last value written to it, is gone when a prefix
   * was written after it, is an object when only something below it was written, and else is as it was.
   */
  lemma {:induction false} FinalLookup(j: Json, updates: seq<Update>, q: Path)
    requires ApplyAll(j, updates).flow == KContinue
    ensures Holds(j, updates, ApplyAll(j, updates).tree, q)
  {
    hide PathOf, Assign, Holds;
    if updates == [] {
      HoldsAtFirst(j, q);
    } else {
      var earlier, u := updates[..|updates| - 1], updates[|updates| - 1];
      var s := ApplyAll(j, earlier).tree;
      FinalLookup(j, earlier, q);
      if Covering(earlier, q).Some? {
        CoveringOfItsPath(earlier, q);
        FinalLookup(j, earlier, PathOf(Covering(earlier, q).value));
        HoldsCovered(j, earlier, s, Covering(earlier, q).value);
      }
      AssignLookup(s, PathOf(u), Str(u.1), q);
      HoldsStep(j, earlier, u, s, q);
      assert earlier + [u] == updates;
    }
  }

  lemma HoldsAtFirst(j: Json, q: Path)
    ensures Holds(j, [], j, q)
  {
  }

  lemma HoldsCovered(j: Json, updates: seq<Update>, t: Json, c: Update)
    requires Holds(j, updates, t, PathOf(c)) && Covering(updates, PathOf(c)) == Some(c)
    ensures At(t, PathOf(c)) == Some(Str(c.1))
  {
  }

  lemma CoveringSnoc(earlier: seq<Update>, u: Update, q: Path)
    ensures Covering(earlier + [u], q) == if PathOf(u) <= q then Some(u) else Covering(earlier, q)
    ensures Below(earlier + [u], q) <==> q < PathOf(u) || Below(earlier, q)
  {
    hide PathOf;
    var all := earlier + [u];
    assert all[..|all| - 1] == earlier;
    if Below(earlier, q) {
      var i :| 0 <= i < |earlier| && q < PathOf(earlier[i]);
      assert q < PathOf(all[i]);
    }
    if q < PathOf(u) {
      assert q < PathOf(all[|earlier|]);
    }
  }

  /** An update that succeeds has not passed through a string. */
  lemma NotThroughString(s: Json, path: Path, v: Json, above: Path, text: string)
    requires Assign(s, path, v).Done? && At(s, above) == Some(Str(text))
    ensures !(above < path)
  {
    if above < path {
      assert path[..|above|] == above;
      AssignFailsIff(s, path, v);
      assert ObstacleAt(s, path, |above|);
    }
  }

  lemma HoldsStep(j: Json, earlier: seq<Update>, u: Update, s: Json, q: Path)
    requires Assign(s, PathOf(u), Str(u.1)).Done?
    requires Binds(s, PathOf(u), Str(u.1), Assign(s, PathOf(u), Str(u.1)).tree, q)
    requires Holds(j, earlier, s, q)
    requires Covering(earlier, q).Some? ==>
               PathOf(Covering(earlier, q).value) <= q &&
               At(s, PathOf(Covering(earlier, q).value)) == Some(Str(Covering(earlier, q).value.1))
    ensures Holds(j, earlier + [u], Assign(s, PathOf(u), Str(u.1)).tree, q)
  {
    hide PathOf, Assign, Covering, Below;
    CoveringSnoc(earlier, u, q);
    if PathOf(u) <= q {
      assert PathOf(u) == q ==> q[|PathOf(u)|..] == [];
    } else if q < PathOf(u) && Covering(earlier, q).Some? {
      var c := Covering(earlier, q).value;
      NotThroughString(s, PathOf(u), Str(u.1), PathOf(c), c.1);
      PrefixTrans(PathOf(c), q, PathOf(u));
    }
  }

  // ---------- Updates that fail ----------

  /** The first update that fails leaves the document as the updates before it made it. */
  lemma {:induction false} FailureKeepsEarlier(j: Json, updates: seq<Update>)
    requires ApplyAll(j, updates).flow != KContinue
    ensures exists n :: 0 <= n < |updates| && FailsFirst(j, updates, n)
  {
    hide PathOf, Assign;
    var n := |updates| - 1;
    if ApplyAll(j, updates[..n]).flow != KContinue {
      FailureKeepsEarlier(j, updates[..n]);
      var m :| 0 <= m < n && FailsFirst(j, updates[..n], m);
      assert updates[..n][..m] == updates[..m];
      assert FailsFirst(j, updates, m);
    } else {
      assert FailsFirst(j, updates, n);
    }
  }

  ghost predicate FailsFirst(j: Json, updates: seq<Update>, n: nat)
    requires n < |updates|
  {
    && ApplyAll(j, updates[..n]).flow == KContinue
    && Assign(ApplyAll(j, updates[..n]).tree, PathOf(updates[n]), Str(updates[n].1)).Stuck?
    && ApplyAll(j, updates).tree == ApplyAll(j, updates[..n]).tree
    && ApplyAll(j, updates).flow ==
         FlowOf(Assign(ApplyAll(j, updates[..n]).tree, PathOf(updates[n]), Str(updates[n].1)).why)
  }

  /** What is reported: the exception when an empty array is in the way, else the error. */
  lemma {:induction false} FailureIsReported(j: Json, updates: seq<Update>, n: nat, m: nat)
    requires n < |updates| && FailsFirst(j, updates, n)
    requires m < |PathOf(updates[n])| && ObstacleAt(ApplyAll(j, updates[..n]).tree, PathOf(updates[n]), m)
    ensures ApplyAll(j, updates).flow ==
            if At(ApplyAll(j, updates[..n]).tree, PathOf(updates[n])[..m]) == Some(Arr([])) then Thrown else KError
  {
    hide PathOf, Assign, ApplyAll;
    AssignFailsIff(ApplyAll(j, updates[..n]).tree, PathOf(updates[n]), Str(updates[n].1));
  }

  /** No key of a path is empty: dots at the ends and doubled dots do not count. */
  lemma KeysAreNotEmpty(u: Update)
    ensures "" !in PathOf(u)
  {
    SkippingIs(u.0, ".", ".");
  }

  // ---------- From the command line into a diagram ----------

  /**
   * A value given on the command line is seen in a diagram that did not have it just when the configuration
   * declares user data of its own and the diagram's data leaves the path open.
   */
  lemma ReachesDiagram(global: Options.Setting<Json>, updates: seq<Update>, diagram: Options.Setting<Json>, q: Path, text: string)
    requires ApplyAll(global.value, updates).flow == KContinue
    requires Covering(updates, q).Some? && PathOf(Covering(updates, q).value) == q && Covering(updates, q).value.1 == text
    ensures var updated := global.(value := ApplyAll(global.value, updates).tree);
            var seen := Options.Overridden(diagram, updated, Options.KAppend, Inherit).value;
            At(seen, q) == Some(Str(text)) <==>
            || At(diagram.value, q) == Some(Str(text))
            || (global.isDeclared && At(Child(diagram.value), q).None? && !Blocks(Child(diagram.value), q))
  {
    hide Blocks, Covering, PathOf, ApplyAll, Child;
    var t := ApplyAll(global.value, updates).tree;
    FinalLookup(global.value, updates, q);
    assert At(t, q) == Some(Str(text));
    if global.isDeclared && q != [] {
      ParentLeafSurvives(diagram.value, t, q, Str(text));
    }
  }

  lemma LicensePath()
    ensures PathOf(("license.type", "CC-0")) == ["license", "type"]
  {
    var toks := ["license", "type"];
    assert toks[1..] == ["type"];
    assert "license" + "." + "type" == "license.type";
    SplitOfJoin(toks, ".", true);
  }

  /**
   * The value that the documentation gives as an example, on the command line and nowhere
   * else: the configuration holds it, but no diagram without user data sees it.
   */
  lemma {:induction false} LicenseIsNotSeen()
    ensures var global := Options.Setting(Null, false, false);
            var run := ApplyAll(global.value, [("license.type", "CC-0")]);
            var seen := Options.Overridden(Options.Setting(Null, false, false), global.(value := run.tree), Options.KAppend, Inherit);
            && run.flow == KContinue
            && At(run.tree, ["license", "type"]) == Some(Str("CC-0"))
            && At(seen.value, ["license", "type"]) == None
  {
    var updates: seq<Update> := [("license.type", "CC-0")];
    var path := ["license", "type"];
    LicensePath();
    hide PathOf;
    assert updates[..0] == [];
    assert path[1..] == ["type"] && path[1..][1..] == [];
    assert Assign(Null, path, Str("CC-0")).Done?;
    AssignLookup(Null, path, Str("CC-0"), path);
    assert path[2..] == [];
  }
}
