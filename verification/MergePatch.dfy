/** How a diagram's user data inherits from the configuration's (src/config/option.cc). */
module MergePatch {
  import opened Strings

  datatype Json =
    | Null
    | Bool(bit: bool)
    | Number(number: real)
    | Str(text: string)
    | Arr(elements: seq<Json>)
    | Obj(members: map<string, Json>)

  type Path = seq<string>

  // ---------- Looking into a document ----------

  function Members(j: Json): map<string, Json> {
    if j.Obj? then j.members else map[]
  }

  function Member(j: Json, key: string): Json {
    if key in Members(j) then Members(j)[key] else Null
  }

  /** What a document binds a path of keys to. */
  function At(j: Json, path: Path): Option<Json> {
    if path == [] then Some(j)
    else if path[0] in Members(j) then At(Members(j)[path[0]], path[1..])
    else None
  }

  function OrNull(j: Option<Json>): Json {
    if j.Some? then j.value else Null
  }

  /** A proper prefix of the path is bound to something that is not an object. */
  ghost predicate Blocks(j: Json, path: Path) {
    exists n :: 0 <= n < |path| && BlocksAt(j, path, n)
  }

  predicate BlocksAt(j: Json, path: Path, n: nat)
    requires n <= |path|
  {
    At(j, path[..n]).Some? && !At(j, path[..n]).value.Obj?
  }

  lemma BlocksDeeper(j: Json, path: Path)
    requires path != [] && path[0] in Members(j)
    ensures Blocks(j, path) <==> Blocks(Members(j)[path[0]], path[1..])
  {
    var inner := Members(j)[path[0]];
    forall n | 0 < n <= |path| ensures At(j, path[..n]) == At(inner, path[1..][..n - 1]) {
      assert path[..n][1..] == path[1..][..n - 1];
    }
    if Blocks(j, path) {
      var n :| 0 <= n < |path| && BlocksAt(j, path, n);
      assert 0 < n;
      assert BlocksAt(inner, path[1..], n - 1);
    }
    if Blocks(inner, path[1..]) {
      var n :| 0 <= n < |path| - 1 && BlocksAt(inner, path[1..], n);
      assert BlocksAt(j, path, n + 1);
    }
  }

  lemma BlocksHere(j: Json, path: Path)
    requires path != [] && path[0] !in Members(j)
    ensures Blocks(j, path) <==> !j.Obj?
  {
    if !j.Obj? {
      assert BlocksAt(j, path, 0);
    } else {
      forall n | 0 <= n < |path| ensures !BlocksAt(j, path, n) {
      }
    }
  }

  /** A path that is bound has no obstacle on its way. */
  lemma {:induction false} BoundIsOpen(j: Json, path: Path)
    requires At(j, path).Some?
    ensures !Blocks(j, path)
  {
    if path != [] {
      BoundIsOpen(Members(j)[path[0]], path[1..]);
      BlocksDeeper(j, path);
    }
  }

  // ---------- Merge patch, section 2 of RFC 7396 ----------

  function MergePatch(target: Json, patch: Json): Json
    decreases patch
  {
    if patch.Obj? then
      Obj(map key | key in Members(target).Keys + patch.members.Keys
                    && !(key in patch.members && patch.members[key] == Null)
          :: if key in patch.members then MergePatch(Member(target, key), patch.members[key])
             else Members(target)[key])
    else patch
  }

  /** `append_value` for JSON: what is inherited is patched with what was there. */
  function Inherit(l: Json, r: Json): Json {
    if !r.Obj? then l
    else if l == Null then r
    else MergePatch(r, l)
  }

  /** The local copy `merged` is patched and moved back. */
  method AppendValue(l: Json, r: Json) returns (l': Json)
    ensures l' == Inherit(l, r)
  {
    l' := l;
    if r.Obj? {
      if l.Null? {
        l' := r;
      } else {
        var merged := r;
        merged := MergePatch(merged, l);
        l' := merged;
      }
    }
  }

  // ---------- What a patched document binds every path to ----------

  /** Nulls in the patch delete, other bindings patch what was there, and the rest is kept. */
  ghost function Patched(target: Json, patch: Json, path: Path): Option<Json> {
    match At(patch, path)
    case Some(p) => if p == Null && path != [] then None else Some(MergePatch(OrNull(At(target, path)), p))
    case None => if Blocks(patch, path) then None else At(target, path)
  }

  lemma {:induction false} PatchedBelow(target: Json, patch: Json, path: Path)
    requires path != [] && path[0] in Members(patch) && Members(patch)[path[0]] != Null
    ensures Patched(target, patch, path) == Patched(Member(target, path[0]), Members(patch)[path[0]], path[1..])
  {
    hide Blocks, MergePatch;
    BlocksDeeper(patch, path);
    assert path[0] !in Members(target) && path[1..] != [] ==> At(Null, path[1..]).None?;
  }

  lemma PatchedAway(target: Json, patch: Json, path: Path)
    requires path != [] && path[0] in Members(patch) && Members(patch)[path[0]] == Null
    ensures Patched(target, patch, path) == None
  {
    hide Blocks, MergePatch;
    BlocksDeeper(patch, path);
    assert At(patch, path) == At(Null, path[1..]);
    if path[1..] != [] {
      BlocksHere(Null, path[1..]);
      assert At(patch, path).None? && Blocks(patch, path);
    }
  }

  lemma {:induction false} Lookup(target: Json, patch: Json, path: Path)
    ensures At(MergePatch(target, patch), path) == Patched(target, patch, path)
    decreases path
  {
    hide Blocks, Patched;
    if path == [] {
      LookupRoot(target, patch);
    } else if path[0] !in Members(patch) {
      LookupElsewhere(target, patch, path);
    } else if Members(patch)[path[0]] == Null {
      PatchedAway(target, patch, path);
    } else {
      Lookup(Member(target, path[0]), Members(patch)[path[0]], path[1..]);
      PatchedBelow(target, patch, path);
    }
  }

  lemma LookupRoot(target: Json, patch: Json)
    ensures Some(MergePatch(target, patch)) == Patched(target, patch, [])
  {
  }

  lemma LookupElsewhere(target: Json, patch: Json, path: Path)
    requires path != [] && path[0] !in Members(patch)
    ensures At(MergePatch(target, patch), path) == Patched(target, patch, path)
  {
    hide Blocks;
    BlocksHere(patch, path);
  }

  // ---------- Inherited user data ----------

  /** What the child brings to the merge: a child without data is an empty object. */
  function Child(l: Json): Json {
    if l == Null then Obj(map[]) else l
  }

  lemma PatchWithNothing(r: Json)
    requires r.Obj?
    ensures MergePatch(r, Obj(map[])) == r
  {
    assert MergePatch(r, Obj(map[])).members == r.members;
  }

  lemma InheritIsPatch(l: Json, r: Json)
    requires r.Obj?
    ensures Inherit(l, r) == MergePatch(r, Child(l))
  {
    PatchWithNothing(r);
  }

  predicate BindsLeaf(j: Json, path: Path, leaf: Json) {
    At(j, path) == Some(leaf) && !leaf.Obj?
  }

  ghost predicate NullFree(j: Json) {
    forall path :: At(j, path) != Some(Null)
  }

  /** Every leaf path of the child keeps the child's value. */
  lemma ChildLeafStays(l: Json, r: Json, path: Path, leaf: Json)
    requires BindsLeaf(l, path, leaf) && leaf != Null
    ensures BindsLeaf(Inherit(l, r), path, leaf)
  {
    hide Blocks;
    assert path == [] ==> l == leaf;
    assert l == Null && path != [] ==> At(l, path).None?;
    if r.Obj? {
      InheritIsPatch(l, r);
      Lookup(r, Child(l), path);
    }
  }

  /** A leaf of the parent survives just when the child neither binds its path nor blocks the way. */
  lemma ParentLeafSurvives(l: Json, r: Json, path: Path, leaf: Json)
    requires BindsLeaf(r, path, leaf)
    ensures At(Inherit(l, r), path) == Some(leaf) <==>
            || (r.Obj? && At(Child(l), path).None? && !Blocks(Child(l), path))
            || (At(l, path) == Some(leaf) && (r.Obj? ==> leaf != Null))
  {
    hide Blocks;
    if r.Obj? {
      InheritIsPatch(l, r);
      Lookup(r, Child(l), path);
      assert path != [];
      assert l == Null ==> At(l, path).None? && At(Child(l), path).None?;
    }
  }

  /** Only an object is inherited: from anything else the child keeps what it has, also when that is nothing. */
  lemma OnlyObjectsAreInherited(l: Json, r: Json)
    ensures !r.Obj? ==> Inherit(l, r) == l
    ensures r.Obj? && l == Null ==> Inherit(l, r) == r
    ensures r.Obj? && l != Null && !l.Obj? ==> Inherit(l, r) == l
  {
  }

  /** A leaf of the result was a leaf of the child or of the parent. */
  lemma NothingIsInvented(l: Json, r: Json, path: Path, leaf: Json)
    requires BindsLeaf(Inherit(l, r), path, leaf)
    ensures BindsLeaf(l, path, leaf) || BindsLeaf(r, path, leaf)
  {
    hide Blocks;
    if r.Obj? && l != Null {
      Lookup(r, l, path);
    }
  }

  // ---------- Patching twice ----------

  /** The same patch a second time changes nothing. */
  lemma {:induction false} PatchIsIdempotent(target: Json, patch: Json)
    ensures MergePatch(MergePatch(target, patch), patch) == MergePatch(target, patch)
    decreases patch
  {
    if patch.Obj? {
      var once := MergePatch(target, patch);
      forall key | key in patch.members && patch.members[key] != Null
        ensures MergePatch(Member(once, key), patch.members[key]) == Member(once, key)
      {
        PatchIsIdempotent(Member(target, key), patch.members[key]);
      }
      assert MergePatch(once, patch).members == once.members;
    }
  }

  /** The parent has something at this path that a second inheritance brings back or takes away. */
  ghost predicate Contested(l: Json, r: Json, path: Path) {
    && path != [] && At(r, path).Some?
    && (|| At(l, path) == Some(Null)
        || (At(l, path).None? && !Blocks(l, path) && At(r, path) == Some(Null)))
  }

  lemma ContestedShows(l: Json, r: Json, path: Path)
    requires Contested(l, r, path)
    ensures MergePatch(r, MergePatch(r, l)) != MergePatch(r, l)
  {
    var once := MergePatch(r, l);
    Lookup(r, l, path);
    Lookup(r, once, path);
    if At(l, path) == Some(Null) {
      DeletedIsOpen(r, l, path);
    }
  }

  /** Where the patch deletes, the containers above are still there. */
  lemma {:induction false} DeletedIsOpen(target: Json, patch: Json, path: Path)
    requires At(patch, path) == Some(Null) && path != []
    ensures !Blocks(MergePatch(target, patch), path)
    decreases path
  {
    hide Blocks;
    var result := MergePatch(target, patch);
    if Members(patch)[path[0]] == Null {
      BlocksHere(result, path);
    } else {
      DeletedIsOpen(Member(target, path[0]), Members(patch)[path[0]], path[1..]);
      BlocksDeeper(result, path);
    }
  }

  lemma AtBelow(j: Json, key: string, path: Path)
    requires key in Members(j)
    ensures At(j, [key] + path) == At(Members(j)[key], path)
    ensures Blocks(j, [key] + path) <==> Blocks(Members(j)[key], path)
  {
    hide Blocks;
    assert ([key] + path)[1..] == path;
    BlocksDeeper(j, [key] + path);
  }

  lemma AtBelowAbsent(j: Json, key: string, path: Path)
    requires key !in Members(j)
    ensures At(j, [key] + path).None?
    ensures Blocks(j, [key] + path) <==> !j.Obj?
  {
    hide Blocks;
    BlocksHere(j, [key] + path);
  }

  ghost predicate HasNoNullMember(j: Json) {
    forall path :: path != [] ==> At(j, path) != Some(Null)
  }

  /** A document without null members is what it becomes when patched with itself. */
  lemma {:induction false} PatchWithItself(j: Json)
    requires HasNoNullMember(j)
    ensures MergePatch(j, j) == j
    decreases j
  {
    if j.Obj? {
      forall key | key in j.members
        ensures j.members[key] != Null && MergePatch(j.members[key], j.members[key]) == j.members[key]
      {
        AtBelow(j, key, []);
        forall path: Path | path != [] ensures At(j.members[key], path) != Some(Null) {
          AtBelow(j, key, path);
        }
        PatchWithItself(j.members[key]);
      }
      assert MergePatch(j, j).members == j.members;
    }
  }

  ghost predicate Uncontested(l: Json, r: Json) {
    forall path :: !Contested(l, r, path)
  }

  lemma UncontestedMember(l: Json, r: Json, key: string)
    requires Uncontested(l, r) && key in Members(l)
    ensures Members(l)[key] == Null ==> key !in Members(r)
    ensures Uncontested(Members(l)[key], Member(r, key))
  {
    hide Blocks;
    AtBelow(l, key, []);
    assert !Contested(l, r, [key] + []);
    if key in Members(r) {
      AtBelow(r, key, []);
      forall path ensures !Contested(Members(l)[key], Members(r)[key], path) {
        AtBelow(l, key, path);
        AtBelow(r, key, path);
        assert !Contested(l, r, [key] + path);
      }
    }
  }

  lemma UncontestedElsewhere(l: Json, r: Json, key: string)
    requires Uncontested(l, r) && l.Obj? && key !in l.members && key in Members(r)
    ensures Members(r)[key] != Null && HasNoNullMember(Members(r)[key])
  {
    hide Blocks;
    forall path ensures At(Members(r)[key], path) != Some(Null) {
      AtBelowAbsent(l, key, path);
      AtBelow(r, key, path);
      assert !Contested(l, r, [key] + path);
    }
    assert At(Members(r)[key], []) != Some(Null);
  }

  lemma {:induction false} UncontestedStays(l: Json, r: Json)
    requires Uncontested(l, r)
    ensures MergePatch(r, MergePatch(r, l)) == MergePatch(r, l)
    decreases l
  {
    hide Uncontested, HasNoNullMember;
    if l.Obj? {
      var once := MergePatch(r, l);
      forall key | key in once.members || key in Members(r)
        ensures key in once.members && once.members[key] != Null
        ensures MergePatch(Member(r, key), once.members[key]) == once.members[key]
      {
        if key in l.members {
          UncontestedMember(l, r, key);
          UncontestedStays(l.members[key], Member(r, key));
        } else {
          UncontestedElsewhere(l, r, key);
          PatchWithItself(Members(r)[key]);
        }
      }
      assert MergePatch(r, once).members == once.members;
    }
  }

  /** Inheriting the same parent twice is inheriting it once just when no null is in the way. */
  lemma TwiceIsOnce(l: Json, r: Json)
    ensures Inherit(Inherit(l, r), r) == Inherit(l, r) <==> !r.Obj? || Uncontested(Child(l), r)
  {
    hide Contested, Blocks;
    if r.Obj? {
      InheritIsPatch(l, r);
      InheritIsPatch(Inherit(l, r), r);
      assert Inherit(l, r) != Null;
      if Uncontested(Child(l), r) {
        UncontestedStays(Child(l), r);
      } else {
        var path :| Contested(Child(l), r, path);
        ContestedShows(Child(l), r, path);
      }
    }
  }

  /** Documents without nulls can inherit as often as they like. */
  lemma NullFreeTwiceIsOnce(l: Json, r: Json)
    requires NullFree(Child(l)) && NullFree(r)
    ensures Inherit(Inherit(l, r), r) == Inherit(l, r)
  {
    hide Blocks;
    forall path ensures !Contested(Child(l), r, path) {
    }
    TwiceIsOnce(l, r);
  }

  /** A null in the child deletes what the parent has, and the next inheritance brings it back. */
  lemma {:induction false} NullComesBack(v: Json)
    requires v != Null
    ensures var l, r := Obj(map["key" := Null]), Obj(map["key" := v]);
            Inherit(l, r) == Obj(map[]) && Inherit(Inherit(l, r), r) == r
  {
    var l, r := Obj(map["key" := Null]), Obj(map["key" := v]);
    assert MergePatch(r, l).members == map[];
    PatchWithNothing(r);
  }
}
