/** `merge_json`, crates/redis-web-bench/src/spec.rs:92-111. */
module SpecMerge {
  import opened Bytes
  import opened JsonTree

  /** What the in-place merge leaves in the slot. */
  function Merge(base: Json, over: Json): (r: Json)
    decreases over
  {
    if over.Null? then base
    else if base.Object? && over.Object? then
      Object(map k | k in base.fields.Keys + over.fields.Keys ::
        if k !in over.fields then base.fields[k]
        else if k in base.fields then Merge(base.fields[k], over.fields[k])
        else over.fields[k])
    else over
  }

  /** What a `&mut Value` refers to. */
  class Slot {
    var value: Json

    constructor (value: Json)
      ensures this.value == value
    {
      this.value := value;
    }
  }

  /** The recursive merge, in place; `get_mut` lends one field out and takes it back changed. */
  method MergeJson(slot: Slot, over: Json)
    modifies slot
    ensures slot.value == Merge(old(slot.value), over)
    decreases over
  {
    if over.Null? {
      return;
    }
    if !slot.value.Object? || !over.Object? {
      slot.value := over;
      return;
    }
    ghost var base := slot.value;
    var todo := over.fields.Keys;
    while todo != {}
      invariant todo <= over.fields.Keys && slot.value.Object?
      invariant slot.value.fields.Keys == base.fields.Keys + (over.fields.Keys - todo)
      invariant forall k :: k in slot.value.fields && k !in todo ==> slot.value.fields[k] == Merge(base, over).fields[k]
      invariant forall k :: k in slot.value.fields && k in todo ==> k in base.fields && slot.value.fields[k] == base.fields[k]
      decreases todo
    {
      var key := TakeLeast(todo);
      var next := over.fields[key];
      if key in slot.value.fields {
        var field := new Slot(slot.value.fields[key]);
        MergeJson(field, next);
        next := field.value;
      }
      slot.value := Object(slot.value.fields[key := next]);
      todo := todo - {key};
    }
    assert slot.value.fields == Merge(base, over).fields;
  }

  // ---------------------------------------------------------------------------------------
  // Laws
  // ---------------------------------------------------------------------------------------

  lemma {:induction false} MergeSelf(t: Json)
    ensures Merge(t, t) == t
  {
    if t.Object? {
      forall k | k in t.fields
        ensures Merge(t.fields[k], t.fields[k]) == t.fields[k]
      {
        MergeSelf(t.fields[k]);
      }
      assert Merge(t, t).fields == t.fields;
    }
  }

  /** Applying the same override again changes nothing. */
  lemma {:induction false} MergeIdempotent(base: Json, over: Json)
    ensures Merge(Merge(base, over), over) == Merge(base, over)
    decreases over
  {
    var once := Merge(base, over);
    if base.Object? && over.Object? {
      forall k | k in over.fields
        ensures Merge(once.fields[k], over.fields[k]) == once.fields[k]
      {
        if k in base.fields {
          MergeIdempotent(base.fields[k], over.fields[k]);
        } else {
          MergeSelf(over.fields[k]);
        }
      }
      assert Merge(once, over).fields == once.fields;
    } else {
      MergeSelf(over);
    }
  }

  /** The path leaves the override at a key its objects do not have, or runs on below a null. */
  predicate Unaddressed(over: Json, path: Path)
    decreases |path|
  {
    && path != []
    && (over.Null? || (over.Object? && (path[0] !in over.fields || Unaddressed(over.fields[path[0]], path[1..]))))
  }

  lemma {:induction false} UnaddressedAbsent(over: Json, path: Path)
    requires Unaddressed(over, path)
    ensures Get(over, path) == None
    decreases |path|
  {
    if over.Object? && path[0] in over.fields {
      UnaddressedAbsent(over.fields[path[0]], path[1..]);
    }
  }

  lemma {:induction false} UnaddressedKept(base: Json, over: Json, path: Path)
    requires Unaddressed(over, path)
    ensures Get(Merge(base, over), path) == Get(base, path)
    decreases |path|
  {
    if over.Object? {
      var k := path[0];
      if !base.Object? {
        UnaddressedAbsent(over, path);
      } else if k in over.fields && k in base.fields {
        UnaddressedKept(base.fields[k], over.fields[k], path[1..]);
      } else if k in over.fields {
        UnaddressedAbsent(over.fields[k], path[1..]);
      }
    }
  }

  /** A tree that holds something at the path. */
  function Reaching(path: Path): (r: Json)
    ensures Get(r, path) == Some(Bool(true))
  {
    if path == [] then Bool(true) else Object(map[path[0] := Reaching(path[1..])])
  }

  /** Every other path has a base whose value there the override changes. */
  lemma {:induction false} AddressedChanges(over: Json, path: Path) returns (base: Json)
    requires !Unaddressed(over, path) && !(over.Null? && path == [])
    ensures Get(Merge(base, over), path) != Get(base, path)
    decreases |path|
  {
    if path == [] {
      base := Bool(over != Bool(true));
    } else if !over.Object? {
      base := Reaching(path);
    } else {
      var k, rest := path[0], path[1..];
      if over.fields[k].Null? && rest == [] {
        base := Object(map[]);
      } else {
        var inner := AddressedChanges(over.fields[k], rest);
        base := Object(map[k := inner]);
      }
    }
  }

  /**
   The override leaves a path alone in every base if and only if it does not address it; a null on
   its own leaves everything alone.
   */
  lemma KeptExactly(over: Json, path: Path)
    ensures (forall base :: Get(Merge(base, over), path) == Get(base, path))
       <==> Unaddressed(over, path) || (over.Null? && path == [])
  {
    if Unaddressed(over, path) {
      forall base
        ensures Get(Merge(base, over), path) == Get(base, path)
      {
        UnaddressedKept(base, over, path);
      }
    } else if !(over.Null? && path == []) {
      var base := AddressedChanges(over, path);
    }
  }

  /**
   A null in the override means "keep" exactly where the base already has a value; elsewhere the
   null itself is inserted.
   */
  lemma {:induction false} NullKeepsExactly(base: Json, over: Json, path: Path)
    requires Get(over, path) == Some(Null)
    ensures Get(Merge(base, over), path) == Get(base, path) <==> Get(base, path).Some?
    ensures Get(base, path).None? ==> Get(Merge(base, over), path) == Some(Null)
    decreases |path|
  {
    if path != [] && base.Object? {
      var k := path[0];
      if k in base.fields {
        NullKeepsExactly(base.fields[k], over.fields[k], path[1..]);
      }
    }
  }

  /** Every path of the override exists afterwards, and a scalar or array there has the override's value. */
  lemma {:induction false} OverrideTakesEffect(base: Json, over: Json, path: Path)
    requires Get(over, path).Some?
    ensures Get(Merge(base, over), path).Some?
    ensures !Get(over, path).value.Object? && !Get(over, path).value.Null? ==>
              Get(Merge(base, over), path) == Get(over, path)
    decreases |path|
  {
    if path != [] && base.Object? {
      var k := path[0];
      if k in base.fields {
        OverrideTakesEffect(base.fields[k], over.fields[k], path[1..]);
      }
    }
  }

  /**
   Path by path, what the merged tree holds: the override's value if it has one there, except that
   two objects join and a null defers to what the base has; the base's if the override does not
   address the path; and nothing below a scalar or array of the override.
   */
  lemma {:induction false} MergeExact(base: Json, over: Json, path: Path)
    ensures var (m, b, o) := (Get(Merge(base, over), path), Get(base, path), Get(over, path));
            if o.None? then m == if Unaddressed(over, path) then b else None
            else if o.value.Null? && b.Some? then m == b
            else if o.value.Object? && b.Some? && b.value.Object? then
              m.Some? && m.value.Object? && m.value.fields.Keys == b.value.fields.Keys + o.value.fields.Keys
            else m == o
    decreases |path|
  {
    if path != [] {
      var k := path[0];
      if base.Object? && over.Object? && k in base.fields && k in over.fields {
        MergeExact(base.fields[k], over.fields[k], path[1..]);
      } else if Unaddressed(over, path) {
        UnaddressedKept(base, over, path);
        UnaddressedAbsent(over, path);
      } else if over.Object? && k in over.fields && Get(over.fields[k], path[1..]).None? {
        assert !Unaddressed(over.fields[k], path[1..]);
      }
    }
  }
}
