/**
 What `collect_diff_entries`, crates/redis-web-bench/src/spec.rs:119-157, finds: entries by path and
 value, before they become text.
 */
module SpecDiff {
  import opened Bytes
  import opened JsonTree
  import opened SpecMerge

  /** A reported difference: where, and the value on each side, if any. */
  datatype Entry = Entry(path: Path, before: Option<Json>, after: Option<Json>)

  /** The same entries one level down. */
  function Under(path: Path, es: seq<Entry>): (r: seq<Entry>)
    ensures |r| == |es|
    ensures forall i :: 0 <= i < |es| ==> r[i] == Entry(path + es[i].path, es[i].before, es[i].after)
  {
    seq(|es|, i requires 0 <= i < |es| => Entry(path + es[i].path, es[i].before, es[i].after))
  }

  /** All differences, relative to the pair of values compared. */
  ghost function Diff(base: Json, variant: Json): (r: seq<Entry>)
    decreases base, 1, 0
  {
    if base == variant then []
    else if base.Object? && variant.Object? then
      DiffKeys(base, variant, InOrder(base.fields.Keys + variant.fields.Keys))
    else [Entry([], Some(base), Some(variant))]
  }

  ghost function DiffKeys(base: Json, variant: Json, keys: seq<string>): (r: seq<Entry>)
    requires base.Object? && variant.Object?
    decreases base, 0, |keys|
  {
    if keys == [] then [] else DiffKey(base, variant, keys[0]) + DiffKeys(base, variant, keys[1..])
  }

  ghost function DiffKey(base: Json, variant: Json, k: string): (r: seq<Entry>)
    requires base.Object? && variant.Object?
    decreases base, 0, 0
  {
    if k in base.fields && k in variant.fields then Under([k], Diff(base.fields[k], variant.fields[k]))
    else if k in base.fields then [Entry([k], Some(base.fields[k]), None)]
    else if k in variant.fields then [Entry([k], None, Some(variant.fields[k]))]
    else []
  }

  lemma UnderUnder(p: Path, q: Path, es: seq<Entry>)
    ensures Under(p, Under(q, es)) == Under(p + q, es)
  {
    forall i | 0 <= i < |es|
      ensures p + (q + es[i].path) == (p + q) + es[i].path
    {}
  }

  lemma UnderAppend(p: Path, a: seq<Entry>, b: seq<Entry>)
    ensures Under(p, a + b) == Under(p, a) + Under(p, b)
  {}

  lemma OrderCases(keys: set<string>)
    ensures InOrder(keys) == if keys == {} then [] else [Least(keys)] + InOrder(keys - {Least(keys)})
  {}

  lemma DiffCases(base: Json, variant: Json)
    ensures Diff(base, variant) ==
            if base == variant then []
            else if base.Object? && variant.Object? then
              DiffKeys(base, variant, InOrder(base.fields.Keys + variant.fields.Keys))
            else [Entry([], Some(base), Some(variant))]
  {}

  lemma KeysNone(base: Json, variant: Json)
    requires base.Object? && variant.Object?
    ensures DiffKeys(base, variant, []) == []
  {}

  lemma KeyCases(base: Json, variant: Json, k: string)
    requires base.Object? && variant.Object?
    ensures DiffKey(base, variant, k) ==
            if k in base.fields && k in variant.fields then Under([k], Diff(base.fields[k], variant.fields[k]))
            else if k in base.fields then [Entry([k], Some(base.fields[k]), None)]
            else if k in variant.fields then [Entry([k], None, Some(variant.fields[k]))]
            else []
  {}

  lemma {:induction false} KeysAppend(base: Json, variant: Json, done: seq<string>, key: string)
    requires base.Object? && variant.Object?
    ensures DiffKeys(base, variant, done + [key]) == DiffKeys(base, variant, done) + DiffKey(base, variant, key)
    decreases |done|
  {
    hide DiffKey;
    if done == [] {
      assert done + [key] == [key] && [key][1..] == [];
    } else {
      KeysAppend(base, variant, done[1..], key);
      AppendTail(done, [key]);
      Associative(DiffKey(base, variant, done[0]), DiffKeys(base, variant, done[1..]), DiffKey(base, variant, key));
    }
  }

  // ---------------------------------------------------------------------------------------
  // Each entry tells the truth
  // ---------------------------------------------------------------------------------------

  predicate Truthful(e: Entry, base: Json, variant: Json)
  {
    e.before == Get(base, e.path) && e.after == Get(variant, e.path) && e.before != e.after
  }

  /** Each entry carries what the two trees hold at its path, and they differ there. */
  lemma {:induction false} EntriesTruthful(base: Json, variant: Json)
    ensures forall e :: e in Diff(base, variant) ==> Truthful(e, base, variant)
    decreases base, 1, 0
  {
    hide DiffKeys;
    DiffCases(base, variant);
    if base != variant && base.Object? && variant.Object? {
      KeysTruthful(base, variant, InOrder(base.fields.Keys + variant.fields.Keys));
    }
  }

  lemma {:induction false} KeysTruthful(base: Json, variant: Json, keys: seq<string>)
    requires base.Object? && variant.Object?
    ensures forall e :: e in DiffKeys(base, variant, keys) ==> Truthful(e, base, variant)
    decreases base, 0, |keys|
  {
    hide DiffKey;
    if keys != [] {
      KeyTruthful(base, variant, keys[0]);
      KeysTruthful(base, variant, keys[1..]);
    }
  }

  lemma {:induction false} KeyTruthful(base: Json, variant: Json, k: string)
    requires base.Object? && variant.Object?
    ensures forall e :: e in DiffKey(base, variant, k) ==> Truthful(e, base, variant) && e.path != [] && e.path[0] == k
    decreases base, 0, 0
  {
    hide DiffKey, Diff;
    KeyCases(base, variant, k);
    if k in base.fields && k in variant.fields {
      EntriesTruthful(base.fields[k], variant.fields[k]);
      var inner := Diff(base.fields[k], variant.fields[k]);
      forall e | e in Under([k], inner)
        ensures Truthful(e, base, variant) && e.path != [] && e.path[0] == k
      {
        var i :| 0 <= i < |inner| && Under([k], inner)[i] == e;
        assert inner[i] in inner;
        assert e.path[1..] == inner[i].path;
      }
    } else {
      assert [k][1..] == [];
      assert Get(base, [k]) == if k in base.fields then Some(base.fields[k]) else None;
      assert Get(variant, [k]) == if k in variant.fields then Some(variant.fields[k]) else None;
    }
  }

  // ---------------------------------------------------------------------------------------
  // No entry's path is a prefix of another's
  // ---------------------------------------------------------------------------------------

  predicate PrefixFree(es: seq<Entry>)
  {
    forall i, j :: 0 <= i < |es| && 0 <= j < |es| && i != j ==> !(es[i].path <= es[j].path)
  }

  lemma {:induction false} EntriesPrefixFree(base: Json, variant: Json)
    ensures PrefixFree(Diff(base, variant))
    decreases base, 1, 0
  {
    hide DiffKeys;
    DiffCases(base, variant);
    if base != variant && base.Object? && variant.Object? {
      KeysPrefixFree(base, variant, InOrder(base.fields.Keys + variant.fields.Keys));
    }
  }

  lemma {:induction false} KeysPrefixFree(base: Json, variant: Json, keys: seq<string>)
    requires base.Object? && variant.Object? && Distinct(keys)
    ensures PrefixFree(DiffKeys(base, variant, keys))
    ensures forall e :: e in DiffKeys(base, variant, keys) ==> e.path != [] && e.path[0] in keys
    decreases base, 0, |keys|
  {
    hide DiffKey;
    if keys != [] {
      var a, b := DiffKey(base, variant, keys[0]), DiffKeys(base, variant, keys[1..]);
      KeyTruthful(base, variant, keys[0]);
      KeyPrefixFree(base, variant, keys[0]);
      KeysPrefixFree(base, variant, keys[1..]);
      PrefixFreeAppend(a, b, keys[0]);
    }
  }

  lemma PrefixFreeAppend(a: seq<Entry>, b: seq<Entry>, k: string)
    requires PrefixFree(a) && PrefixFree(b)
    requires forall e :: e in a ==> e.path != [] && e.path[0] == k
    requires forall e :: e in b ==> e.path != [] && e.path[0] != k
    ensures PrefixFree(a + b)
  {
    var es := a + b;
    forall i, j | 0 <= i < |es| && 0 <= j < |es| && i != j
      ensures !(es[i].path <= es[j].path)
    {
      assert es[i] == if i < |a| then a[i] else b[i - |a|];
      assert es[j] == if j < |a| then a[j] else b[j - |a|];
      if i < |a| && j >= |a| {
        assert a[i] in a && b[j - |a|] in b;
      } else if i >= |a| && j < |a| {
        assert a[j] in a && b[i - |a|] in b;
      }
    }
  }

  lemma ConsPrefix(k: string, p: Path, q: Path)
    ensures [k] + p <= [k] + q <==> p <= q
  {
    assert ([k] + p)[1..] == p && ([k] + q)[1..] == q;
    assert p <= q <==> |p| <= |q| && p == q[..|p|];
    assert [k] + p <= [k] + q <==> |p| <= |q| && [k] + p == ([k] + q)[..|p| + 1];
    assert |p| <= |q| ==> ([k] + q)[..|p| + 1] == [k] + q[..|p|];
  }

  lemma {:induction false} KeyPrefixFree(base: Json, variant: Json, k: string)
    requires base.Object? && variant.Object?
    ensures PrefixFree(DiffKey(base, variant, k))
    decreases base, 0, 0
  {
    hide DiffKey, Diff;
    KeyCases(base, variant, k);
    if k in base.fields && k in variant.fields {
      EntriesPrefixFree(base.fields[k], variant.fields[k]);
      var inner := Diff(base.fields[k], variant.fields[k]);
      forall i, j | 0 <= i < |inner| && 0 <= j < |inner| && i != j
        ensures !([k] + inner[i].path <= [k] + inner[j].path)
      {
        ConsPrefix(k, inner[i].path, inner[j].path);
      }
    }
  }

  // ---------------------------------------------------------------------------------------
  // Applying the diff
  // ---------------------------------------------------------------------------------------

  function Apply(j: Json, es: seq<Entry>): (r: Json)
    decreases |es|
  {
    if es == [] then j else Apply(Put(j, es[0].path, es[0].after), es[1..])
  }

  lemma {:induction false} ApplyAppend(j: Json, a: seq<Entry>, b: seq<Entry>)
    ensures Apply(j, a + b) == Apply(Apply(j, a), b)
    decreases |a|
  {
    if a == [] {
      assert a + b == b;
    } else {
      AppendTail(a, b);
      ApplyAppend(Put(j, a[0].path, a[0].after), a[1..], b);
    }
  }

  /** No entry removes the value it is applied to. */
  predicate KeepsRoot(es: seq<Entry>)
  {
    forall i :: 0 <= i < |es| && es[i].path == [] ==> es[i].after.Some?
  }

  /** Entries below one key act on that field alone. */
  lemma {:induction false} ApplyUnder(m: map<string, Json>, k: string, es: seq<Entry>)
    requires k in m && KeepsRoot(es)
    ensures Apply(Object(m), Under([k], es)) == Object(m[k := Apply(m[k], es)])
    decreases |es|
  {
    if es == [] {
      assert m[k := m[k]] == m;
    } else {
      var e := es[0];
      var v := Put(m[k], e.path, e.after);
      assert Under([k], es)[0].path == [k] + e.path && ([k] + e.path)[1..] == e.path;
      assert Put(Object(m), [k] + e.path, e.after) == Object(m[k := v]);
      assert Under([k], es)[1..] == Under([k], es[1..]);
      ApplyUnder(m[k := v], k, es[1..]);
      assert m[k := v][k := Apply(v, es[1..])] == m[k := Apply(v, es[1..])];
    }
  }

  /** Two objects agree on a key: both lack it, or both hold the same value. */
  predicate Agree(a: map<string, Json>, b: map<string, Json>, k: string)
  {
    (k in a <==> k in b) && (k in a && k in b ==> a[k] == b[k])
  }

  /** Applying the diff of two trees to the first gives the second. */
  lemma {:induction false} DiffExact(base: Json, variant: Json)
    ensures Apply(base, Diff(base, variant)) == variant
    ensures KeepsRoot(Diff(base, variant))
    decreases base, 1, 0
  {
    hide DiffKeys;
    DiffCases(base, variant);
    if base != variant {
      if base.Object? && variant.Object? {
        var keys := InOrder(base.fields.Keys + variant.fields.Keys);
        KeysTruthful(base, variant, keys);
        KeysPrefixFree(base, variant, keys);
        ApplyKeys(base, variant, keys, base.fields);
      } else {
        assert Diff(base, variant)[1..] == [];
      }
    }
  }

  /** Keys still to come agree with the base, keys already treated agree with the variant. */
  lemma {:induction false} ApplyKeys(base: Json, variant: Json, keys: seq<string>, m: map<string, Json>)
    requires base.Object? && variant.Object? && Distinct(keys)
    requires forall k :: k in keys ==> Agree(m, base.fields, k)
    requires forall k :: k !in keys ==> Agree(m, variant.fields, k)
    ensures Apply(Object(m), DiffKeys(base, variant, keys)) == variant
    decreases base, 0, |keys|
  {
    hide DiffKey;
    if keys == [] {
      forall k
        ensures (k in m <==> k in variant.fields) && (k in m && k in variant.fields ==> m[k] == variant.fields[k])
      {
        assert Agree(m, variant.fields, k);
      }
      assert m == variant.fields;
    } else {
      var k := keys[0];
      ApplyAppend(Object(m), DiffKey(base, variant, k), DiffKeys(base, variant, keys[1..]));
      var next := ApplyKey(base, variant, k, m);
      forall x | x !in keys[1..]
        ensures Agree(next, variant.fields, x)
      {
        if x != k {
          assert x !in keys;
          assert Agree(next, m, x) && Agree(m, variant.fields, x);
        }
      }
      forall x | x in keys[1..]
        ensures Agree(next, base.fields, x)
      {
        assert x in keys && x != k;
        assert Agree(next, m, x) && Agree(m, base.fields, x);
      }
      ApplyKeys(base, variant, keys[1..], next);
    }
  }

  lemma {:induction false} ApplyKey(base: Json, variant: Json, k: string, m: map<string, Json>)
    returns (next: map<string, Json>)
    requires base.Object? && variant.Object? && Agree(m, base.fields, k)
    ensures Apply(Object(m), DiffKey(base, variant, k)) == Object(next)
    ensures Agree(next, variant.fields, k) && forall x :: x != k ==> Agree(next, m, x)
    decreases base, 0, 0
  {
    hide DiffKey, Diff;
    KeyCases(base, variant, k);
    if k in base.fields && k in variant.fields {
      DiffExact(base.fields[k], variant.fields[k]);
      ApplyUnder(m, k, Diff(base.fields[k], variant.fields[k]));
      next := m[k := variant.fields[k]];
    } else if k in base.fields {
      next := m - {k};
    } else if k in variant.fields {
      next := m[k := variant.fields[k]];
    } else {
      next := m;
    }
  }

  /** Nothing is reported exactly when nothing differs. */
  lemma EmptyExactlyEqual(base: Json, variant: Json)
    ensures Diff(base, variant) == [] <==> base == variant
  {
    hide Diff;
    DiffExact(base, variant);
    DiffCases(base, variant);
  }

  // ---------------------------------------------------------------------------------------
  // Which paths are reported
  // ---------------------------------------------------------------------------------------

  /** Both trees have objects down to the path, and there they differ otherwise than as two objects. */
  predicate Parts(base: Json, variant: Json, path: Path)
    decreases |path|
  {
    if path == [] then base != variant && !(base.Object? && variant.Object?)
    else
      && base.Object? && variant.Object?
      && var k := path[0];
         if k in base.fields && k in variant.fields then Parts(base.fields[k], variant.fields[k], path[1..])
         else |path| == 1 && (k in base.fields || k in variant.fields)
  }

  lemma {:induction false} PartsDiffer(base: Json, variant: Json, path: Path)
    requires Parts(base, variant, path)
    ensures base != variant
    decreases |path|
  {
    if path != [] && path[0] in base.fields && path[0] in variant.fields {
      PartsDiffer(base.fields[path[0]], variant.fields[path[0]], path[1..]);
    }
  }

  lemma {:induction false} KeysMember(base: Json, variant: Json, keys: seq<string>, e: Entry)
    requires base.Object? && variant.Object?
    ensures e in DiffKeys(base, variant, keys)
       <==> e.path != [] && e.path[0] in keys && e in DiffKey(base, variant, e.path[0])
    decreases |keys|
  {
    hide DiffKey;
    if keys != [] {
      KeyTruthful(base, variant, keys[0]);
      KeysMember(base, variant, keys[1..], e);
      assert keys == [keys[0]] + keys[1..];
    }
  }

  lemma UnderMember(k: string, es: seq<Entry>, e: Entry)
    requires e.path != []
    ensures e in Under([k], es) <==> e.path[0] == k && Entry(e.path[1..], e.before, e.after) in es
  {
    var inner, r := Entry(e.path[1..], e.before, e.after), Under([k], es);
    if e in r {
      var i :| 0 <= i < |es| && r[i] == e;
      assert ([k] + es[i].path)[1..] == es[i].path;
      assert es[i] == inner;
    }
    if e.path[0] == k && inner in es {
      var i :| 0 <= i < |es| && es[i] == inner;
      assert [k] + e.path[1..] == e.path;
      assert r[i] == e;
    }
  }

  /** An entry is reported exactly when the trees part at its path and it carries what they hold there. */
  lemma {:induction false} EntriesExact(base: Json, variant: Json, e: Entry)
    ensures e in Diff(base, variant)
       <==> Parts(base, variant, e.path) && e.before == Get(base, e.path) && e.after == Get(variant, e.path)
    decreases |e.path|
  {
    hide Diff, DiffKeys, DiffKey, InOrder;
    DiffCases(base, variant);
    if base == variant {
      if Parts(base, variant, e.path) {
        PartsDiffer(base, variant, e.path);
      }
    } else if base.Object? && variant.Object? {
      KeysMember(base, variant, InOrder(base.fields.Keys + variant.fields.Keys), e);
      if e.path != [] {
        KeyMember(base, variant, e);
      }
    }
  }

  lemma {:induction false} KeyMember(base: Json, variant: Json, e: Entry)
    requires base.Object? && variant.Object? && e.path != []
    ensures e in DiffKey(base, variant, e.path[0])
       <==> Parts(base, variant, e.path) && e.before == Get(base, e.path) && e.after == Get(variant, e.path)
    decreases |e.path|, 0
  {
    hide Diff, DiffKey, Under;
    var k, rest := e.path[0], e.path[1..];
    KeyCases(base, variant, k);
    if k in base.fields && k in variant.fields {
      var a, b := base.fields[k], variant.fields[k];
      UnderMember(k, Diff(a, b), e);
      EntriesExact(a, b, Entry(rest, e.before, e.after));
    } else {
      assert |e.path| == 1 ==> e.path == [k] && rest == [];
    }
  }

  // ---------------------------------------------------------------------------------------
  // Diff after merge
  // ---------------------------------------------------------------------------------------

  /** Everything the diff of a tree against its merge reports is a path of the override. */
  lemma {:induction false} MergeDiffWithinOverride(base: Json, over: Json)
    ensures forall e :: e in Diff(base, Merge(base, over)) ==> Get(over, e.path).Some?
    decreases over
  {
    var merged := Merge(base, over);
    if base.Object? && over.Object? && base != merged {
      hide Diff, DiffKeys, DiffKey;
      DiffCases(base, merged);
      KeysWithinOverride(base, over, InOrder(base.fields.Keys + merged.fields.Keys));
    } else if base != merged {
      DiffCases(base, merged);
    }
  }

  lemma {:induction false} KeysWithinOverride(base: Json, over: Json, keys: seq<string>)
    requires base.Object? && over.Object?
    ensures forall e :: e in DiffKeys(base, Merge(base, over), keys) ==> Get(over, e.path).Some?
    decreases over, |keys|
  {
    if keys != [] {
      hide DiffKey, Diff;
      var k, merged := keys[0], Merge(base, over);
      KeysWithinOverride(base, over, keys[1..]);
      KeyCases(base, merged, k);
      if k in base.fields && k in over.fields {
        MergeDiffWithinOverride(base.fields[k], over.fields[k]);
        var inner := Diff(base.fields[k], merged.fields[k]);
        forall e | e in Under([k], inner)
          ensures Get(over, e.path).Some?
        {
          var i :| 0 <= i < |inner| && Under([k], inner)[i] == e;
          assert inner[i] in inner && e.path[1..] == inner[i].path;
        }
      } else if k in base.fields {
        DiffCases(base.fields[k], merged.fields[k]);
      }
    }
  }
}
