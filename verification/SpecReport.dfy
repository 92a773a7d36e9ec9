/**
 `flatten_diff` and `collect_diff_entries`, crates/redis-web-bench/src/spec.rs:113-157: the report
 as text, and when its keys tell the entries apart.
 */
module SpecReport {
  import opened Bytes
  import opened JsonTree
  import opened SpecDiff

  /** The reported key: the path joined with dots, except that an empty prefix adds no dot. */
  function Dotted(path: Path): (r: string)
  {
    if path == [] then ""
    else
      var front, k := Dotted(path[..|path| - 1]), path[|path| - 1];
      if front == "" then k else front + "." + k
  }

  predicate PlainKey(k: string) { k != "" && '.' !in k }

  predicate Plain(path: Path) { forall i :: 0 <= i < |path| ==> PlainKey(path[i]) }

  lemma {:induction false} DottedNonEmpty(path: Path)
    requires Plain(path) && path != []
    ensures Dotted(path) != ""
  {}

  lemma LastDot(a: string, k: string, b: string, l: string)
    requires '.' !in k && '.' !in l && a + "." + k == b + "." + l
    ensures a == b && k == l
  {
    var s := a + "." + k;
    assert s[|a|] == '.' && s[|b|] == '.';
    assert forall i :: |a| < i < |s| ==> s[i] == k[i - |a| - 1];
    assert forall i :: |b| < i < |s| ==> s[i] == l[i - |b| - 1];
    assert |a| == |b|;
    assert a == s[..|a|] && b == s[..|b|];
    assert k == s[|a| + 1..] && l == s[|b| + 1..];
  }

  /** A dot appears exactly when something precedes the last key. */
  lemma DotsSeparate(path: Path)
    requires Plain(path) && path != []
    ensures '.' in Dotted(path) <==> Dotted(path[..|path| - 1]) != ""
  {
    var front, k := Dotted(path[..|path| - 1]), path[|path| - 1];
    assert PlainKey(k);
    if front != "" {
      assert (front + "." + k)[|front|] == '.';
    }
  }

  /** Non-empty keys without dots make the dotted form unambiguous. */
  lemma {:induction false} DottedUnique(p: Path, q: Path)
    requires Plain(p) && Plain(q) && Dotted(p) == Dotted(q)
    ensures p == q
    decreases |p|
  {
    if p == [] || q == [] {
      if p != [] {
        DottedNonEmpty(p);
      }
      if q != [] {
        DottedNonEmpty(q);
      }
    } else {
      var a, k := p[..|p| - 1], p[|p| - 1];
      var b, l := q[..|q| - 1], q[|q| - 1];
      assert PlainKey(k) && PlainKey(l);
      DotsSeparate(p);
      DotsSeparate(q);
      if Dotted(a) != "" {
        LastDot(Dotted(a), k, Dotted(b), l);
      }
      DottedUnique(a, b);
      assert p == a + [k] && q == b + [l];
    }
  }

  // ---------------------------------------------------------------------------------------
  // The report
  // ---------------------------------------------------------------------------------------

  datatype ConfigDiff = ConfigDiff(key: string, before: string, after: string)

  const UNSET: string := "<unset>"

  /** `display_json_value`: a string as it is, anything else as `show` writes it. */
  function Display(show: Json -> string, v: Option<Json>): (r: string)
  {
    if v.None? then UNSET else if v.value.Text? then v.value.s else show(v.value)
  }

  /** The text says that the value is unset, is the string itself, or is how `show` writes it. */
  predicate Says(show: Json -> string, text: string, v: Option<Json>)
  {
    && (v.None? ==> text == "<unset>")
    && (v.Some? && v.value.Text? ==> text == v.value.s)
    && (v.Some? && !v.value.Text? ==> text == show(v.value))
  }

  function Reports(show: Json -> string, es: seq<Entry>): (r: seq<ConfigDiff>)
    ensures |r| == |es|
    ensures forall i :: 0 <= i < |es| ==>
              r[i] == ConfigDiff(Dotted(es[i].path), Display(show, es[i].before), Display(show, es[i].after))
  {
    seq(|es|, i requires 0 <= i < |es| =>
      ConfigDiff(Dotted(es[i].path), Display(show, es[i].before), Display(show, es[i].after)))
  }

  lemma ReportsAppend(show: Json -> string, a: seq<Entry>, b: seq<Entry>)
    ensures Reports(show, a + b) == Reports(show, a) + Reports(show, b)
  {
    hide Dotted, Display;
  }

  lemma DottedStep(path: Path, key: string)
    ensures Dotted(path + [key]) == if Dotted(path) == "" then key else Dotted(path) + "." + key
  {
    assert (path + [key])[..|path|] == path;
  }

  /** The shared vector the recursion pushes to. */
  class Collector {
    const show: Json -> string
    var diffs: seq<ConfigDiff>

    constructor (show: Json -> string)
      ensures this.show == show && diffs == []
    {
      this.show := show;
      diffs := [];
    }

    method CollectKey(name: string, ghost path: Path, base: Json, variant: Json, key: string)
      requires base.Object? && variant.Object? && (key in base.fields || key in variant.fields)
      requires name == Dotted(path)
      modifies this
      ensures diffs == old(diffs) + Reports(show, Under(path, DiffKey(base, variant, key)))
      decreases base, 0
    {
      hide Diff, DiffKey, Dotted;
      KeyCases(base, variant, key);
      DottedStep(path, key);
      var nextName := if name == "" then key else name + "." + key;
      if key in base.fields && key in variant.fields {
        Collect(nextName, path + [key], base.fields[key], variant.fields[key]);
        UnderUnder(path, [key], Diff(base.fields[key], variant.fields[key]));
      } else if key in base.fields {
        diffs := diffs + [ConfigDiff(nextName, Display(show, Some(base.fields[key])), UNSET)];
      } else {
        diffs := diffs + [ConfigDiff(nextName, UNSET, Display(show, Some(variant.fields[key])))];
      }
    }

    method Collect(name: string, ghost path: Path, base: Json, variant: Json)
      requires name == Dotted(path)
      modifies this
      ensures diffs == old(diffs) + Reports(show, Under(path, Diff(base, variant)))
      decreases base, 1
    {
      hide Diff, DiffKeys, DiffKey, InOrder, Dotted;
      DiffCases(base, variant);
      if base == variant {
        return;
      }
      if !base.Object? || !variant.Object? {
        assert path + [] == path;
        diffs := diffs + [ConfigDiff(name, Display(show, Some(base)), Display(show, Some(variant)))];
        return;
      }
      var todo := base.fields.Keys + variant.fields.Keys;
      ghost var order, done: seq<string> := InOrder(todo), [];
      KeysNone(base, variant);
      while todo != {}
        invariant todo <= base.fields.Keys + variant.fields.Keys
        invariant order == done + InOrder(todo)
        invariant diffs == old(diffs) + Reports(show, Under(path, DiffKeys(base, variant, done)))
        decreases todo
      {
        var key := TakeLeast(todo);
        CollectKey(name, path, base, variant, key);
        KeyDone(show, old(diffs), path, base, variant, done, key, todo);
        done := done + [key];
        todo := todo - {key};
      }
      assert InOrder({}) == [] by { OrderCases({}); }
      assert done + [] == done;
    }
  }

  lemma KeyDone(show: Json -> string, start: seq<ConfigDiff>, path: Path, base: Json, variant: Json,
                done: seq<string>, key: string, todo: set<string>)
    requires base.Object? && variant.Object? && todo != {} && key == Least(todo)
    ensures done + InOrder(todo) == (done + [key]) + InOrder(todo - {key})
    ensures start + Reports(show, Under(path, DiffKeys(base, variant, done + [key])))
         == (start + Reports(show, Under(path, DiffKeys(base, variant, done))))
            + Reports(show, Under(path, DiffKey(base, variant, key)))
  {
    hide DiffKeys, DiffKey, InOrder, Reports, Under;
    var a, b := DiffKeys(base, variant, done), DiffKey(base, variant, key);
    OrderCases(todo);
    Associative(done, [key], InOrder(todo - {key}));
    KeysAppend(base, variant, done, key);
    UnderAppend(path, a, b);
    ReportsAppend(show, Under(path, a), Under(path, b));
    Associative(start, Reports(show, Under(path, a)), Reports(show, Under(path, b)));
  }

  lemma UnderNothing(es: seq<Entry>)
    ensures [] + Under([], es) == es
  {
    forall i | 0 <= i < |es|
      ensures [] + es[i].path == es[i].path
    {}
  }

  /**
   `flatten_diff`: the report lists, as text, entries that applied to the base give the variant,
   are true of both trees and have no path that is a prefix of another; it is empty exactly for
   equal trees; and with plain keys no two lines have the same key.
   */
  method FlattenDiff(base: Json, variant: Json, show: Json -> string)
    returns (r: seq<ConfigDiff>, ghost es: seq<Entry>)
    ensures es == Diff(base, variant) && |r| == |es|
    ensures forall i :: 0 <= i < |r| ==>
              && r[i].key == Dotted(es[i].path)
              && Says(show, r[i].before, es[i].before) && Says(show, r[i].after, es[i].after)
    ensures Apply(base, es) == variant
    ensures forall e :: e in es ==> Truthful(e, base, variant)
    ensures PrefixFree(es)
    ensures r == [] <==> base == variant
    ensures KeysWithin(base, PlainKey) && KeysWithin(variant, PlainKey) ==>
              forall i, j :: 0 <= i < j < |r| ==> r[i].key != r[j].key
  {
    hide Diff, PrefixFree, Apply, Truthful, Dotted, KeysWithin;
    var collector := new Collector(show);
    assert Dotted([]) == "" by { RootUnnamed(); }
    collector.Collect("", [], base, variant);
    r, es := collector.diffs, Diff(base, variant);
    UnderNothing(es);
    assert Under([], es) == es;
    DiffExact(base, variant);
    EntriesTruthful(base, variant);
    EntriesPrefixFree(base, variant);
    EmptyExactlyEqual(base, variant);
    if KeysWithin(base, PlainKey) && KeysWithin(variant, PlainKey) {
      PlainKeysDistinct(base, variant);
    }
  }

  lemma RootUnnamed()
    ensures Dotted([]) == ""
  {}

  // ---------------------------------------------------------------------------------------
  // When the keys of a report are distinct
  // ---------------------------------------------------------------------------------------

  /** Every key on the way down the tree's objects is allowed. */
  predicate KeysWithin(j: Json, allowed: string -> bool)
    decreases j
  {
    j.Object? ==> forall k :: k in j.fields ==> allowed(k) && KeysWithin(j.fields[k], allowed)
  }

  ghost predicate DistinctKeys(es: seq<Entry>)
  {
    forall i, j :: 0 <= i < j < |es| ==> Dotted(es[i].path) != Dotted(es[j].path)
  }

  lemma {:induction false} PathsWithin(j: Json, allowed: string -> bool, path: Path)
    requires KeysWithin(j, allowed) && Get(j, path).Some?
    ensures forall i :: 0 <= i < |path| ==> allowed(path[i])
    decreases |path|
  {
    if path != [] {
      PathsWithin(j.fields[path[0]], allowed, path[1..]);
      assert path == [path[0]] + path[1..];
    }
  }

  ghost predicate Over(path: Path, allowed: string -> bool)
  {
    forall i :: 0 <= i < |path| ==> allowed(path[i])
  }

  predicate Unrelated(p: Path, q: Path) { !(p <= q) && !(q <= p) }

  /** A number at the end of the path and nothing else. */
  function Alone(path: Path, n: int): (r: Json)
  {
    if path == [] then Number(n) else Object(map[path[0] := Alone(path[1..], n)])
  }

  /** The same number at the end of two paths, neither of which is a prefix of the other. */
  function Forked(p: Path, q: Path, n: int): (r: Json)
    requires Unrelated(p, q)
    decreases |p|
  {
    if p[0] == q[0] then
      UnrelatedTails(p, q);
      Object(map[p[0] := Forked(p[1..], q[1..], n)])
    else Object(map[p[0] := Alone(p[1..], n), q[0] := Alone(q[1..], n)])
  }

  lemma UnrelatedTails(p: Path, q: Path)
    requires Unrelated(p, q)
    ensures p != [] && q != [] && (p[0] == q[0] ==> Unrelated(p[1..], q[1..]))
  {
    if p[0] == q[0] {
      ConsPrefix(p[0], p[1..], q[1..]);
      ConsPrefix(p[0], q[1..], p[1..]);
      assert p == [p[0]] + p[1..] && q == [q[0]] + q[1..];
    }
  }

  /** The entry for a number that was 1 and is 2. */
  function Bumped(path: Path): (e: Entry) { Entry(path, Some(Number(1)), Some(Number(2))) }

  /** What makes `EntriesExact` report such a change at the path. */
  ghost predicate Bumps(base: Json, variant: Json, path: Path)
  {
    Parts(base, variant, path) && Get(base, path) == Some(Number(1)) && Get(variant, path) == Some(Number(2))
  }

  lemma BumpsBelow(base: Json, variant: Json, path: Path)
    requires base.Object? && variant.Object? && path != []
    requires path[0] in base.fields && path[0] in variant.fields
    requires Bumps(base.fields[path[0]], variant.fields[path[0]], path[1..])
    ensures Bumps(base, variant, path)
  {}

  lemma {:induction false} AloneBumps(path: Path)
    ensures Bumps(Alone(path, 1), Alone(path, 2), path)
  {
    hide Bumps;
    if path != [] {
      AloneBumps(path[1..]);
      BumpsBelow(Alone(path, 1), Alone(path, 2), path);
    } else {
      NumberBumps();
    }
  }

  lemma NumberBumps()
    ensures Bumps(Number(1), Number(2), [])
  {}

  lemma {:induction false} ForkedBumps(p: Path, q: Path)
    requires Unrelated(p, q)
    ensures Bumps(Forked(p, q, 1), Forked(p, q, 2), p) && Bumps(Forked(p, q, 1), Forked(p, q, 2), q)
    decreases |p|
  {
    hide Bumps, Unrelated;
    var base, variant := Forked(p, q, 1), Forked(p, q, 2);
    UnrelatedTails(p, q);
    if p[0] == q[0] {
      ForkedBumps(p[1..], q[1..]);
    } else {
      AloneBumps(p[1..]);
      AloneBumps(q[1..]);
    }
    BumpsBelow(base, variant, p);
    BumpsBelow(base, variant, q);
  }

  lemma {:induction false} AloneWithin(path: Path, allowed: string -> bool, n: int)
    requires Over(path, allowed)
    ensures KeysWithin(Alone(path, n), allowed)
  {
    if path != [] {
      assert allowed(path[0]);
      AloneWithin(path[1..], allowed, n);
    }
  }

  lemma {:induction false} ForkedWithin(p: Path, q: Path, allowed: string -> bool, n: int)
    requires Unrelated(p, q) && Over(p, allowed) && Over(q, allowed)
    ensures KeysWithin(Forked(p, q, n), allowed)
    decreases |p|
  {
    hide Unrelated;
    UnrelatedTails(p, q);
    assert allowed(p[0]) && allowed(q[0]);
    if p[0] == q[0] {
      ForkedWithin(p[1..], q[1..], allowed, n);
    } else {
      AloneWithin(p[1..], allowed, n);
      AloneWithin(q[1..], allowed, n);
    }
  }

  /** Two unrelated paths with one dotted form give two trees whose report repeats a key. */
  lemma ForkedCollides(p: Path, q: Path)
    requires Unrelated(p, q) && Dotted(p) == Dotted(q)
    ensures !DistinctKeys(Diff(Forked(p, q, 1), Forked(p, q, 2)))
  {
    hide Diff, Dotted, Forked, Parts, Get;
    var base, variant := Forked(p, q, 1), Forked(p, q, 2);
    var es := Diff(base, variant);
    ForkedBumps(p, q);
    EntriesExact(base, variant, Bumped(p));
    EntriesExact(base, variant, Bumped(q));
    var i :| 0 <= i < |es| && es[i] == Bumped(p);
    var j :| 0 <= j < |es| && es[j] == Bumped(q);
    assert i != j;
    assert Dotted(es[if i < j then i else j].path) == Dotted(es[if i < j then j else i].path);
  }

  /** Unrelated paths over these keys never look alike. */
  ghost predicate TellsApart(allowed: string -> bool)
  {
    forall p, q :: Over(p, allowed) && Over(q, allowed) && Unrelated(p, q) ==> Dotted(p) != Dotted(q)
  }

  lemma ToldApartDistinct(base: Json, variant: Json, allowed: string -> bool)
    requires TellsApart(allowed) && KeysWithin(base, allowed) && KeysWithin(variant, allowed)
    ensures DistinctKeys(Diff(base, variant))
  {
    hide Diff, Dotted, KeysWithin, Get;
    var es := Diff(base, variant);
    EntriesTruthful(base, variant);
    EntriesPrefixFree(base, variant);
    forall i | 0 <= i < |es|
      ensures Over(es[i].path, allowed)
    {
      assert Truthful(es[i], base, variant);
      PathsWithin(if es[i].before.Some? then base else variant, allowed, es[i].path);
    }
    forall i, j | 0 <= i < j < |es|
      ensures Dotted(es[i].path) != Dotted(es[j].path)
    {
      assert Unrelated(es[i].path, es[j].path);
    }
  }

  /**
   For any choice of keys: every report over trees with such keys has distinct dotted keys if and
   only if no two unrelated paths over them have the same dotted form.
   */
  lemma DistinctExactly(allowed: string -> bool)
    ensures (forall base, variant :: KeysWithin(base, allowed) && KeysWithin(variant, allowed) ==>
               DistinctKeys(Diff(base, variant)))
       <==> TellsApart(allowed)
  {
    hide Diff, Dotted, DistinctKeys, Unrelated, Over;
    if TellsApart(allowed) {
      forall base, variant | KeysWithin(base, allowed) && KeysWithin(variant, allowed)
        ensures DistinctKeys(Diff(base, variant))
      {
        ToldApartDistinct(base, variant, allowed);
      }
    } else {
      var p, q :| Over(p, allowed) && Over(q, allowed) && Unrelated(p, q) && Dotted(p) == Dotted(q);
      ForkedWithin(p, q, allowed, 1);
      ForkedWithin(p, q, allowed, 2);
      ForkedCollides(p, q);
    }
  }

  // ---------------------------------------------------------------------------------------
  // Which keys tell paths apart
  // ---------------------------------------------------------------------------------------

  lemma DottedPair(k: string, x: string, y: string)
    ensures Dotted([k]) == k && Dotted([x, y]) == if x == "" then y else x + "." + y
  {
    assert [k][..0] == [] && [x][..0] == [] && [x, y][..1] == [x];
  }

  lemma PairUnrelated(k: string, x: string, y: string)
    requires k != x
    ensures Unrelated([k], [x, y])
  {
    assert [k][0] != [x, y][0];
  }

  /** One value at `k`, and the same value at `x` and then `y`. */
  function Twice(k: string, x: string, y: string, n: int): (r: Json)
  {
    Object(map[k := Number(n), x := Object(map[y := Number(n)])])
  }

  lemma TwiceIsForked(k: string, x: string, y: string, n: int)
    requires k != x
    ensures Unrelated([k], [x, y]) && Twice(k, x, y, n) == Forked([k], [x, y], n)
  {
    PairUnrelated(k, x, y);
    assert [k][1..] == [] && [x, y][1..] == [y] && [y][1..] == [];
    assert Alone([y], n) == Object(map[y := Alone([], n)]);
  }

  /** So a report can have two lines under one key: that of `{"a.b": n, "a": {"b": n}}` has. */
  lemma DottedCollides()
    ensures !DistinctKeys(Diff(Twice("a.b", "a", "b", 1), Twice("a.b", "a", "b", 2)))
    ensures !DistinctKeys(Diff(Twice("a", "", "a", 1), Twice("a", "", "a", 2)))
  {
    hide Dotted, Diff, DistinctKeys, Forked, Twice;
    assert "a" + "." + "b" == "a.b";
    TwiceCollides("a.b", "a", "b");
    TwiceCollides("a", "", "a");
  }

  lemma TwiceCollides(k: string, x: string, y: string)
    requires k != x && k == if x == "" then y else x + "." + y
    ensures !DistinctKeys(Diff(Twice(k, x, y, 1), Twice(k, x, y, 2)))
  {
    hide Dotted, Diff, DistinctKeys, Forked, Twice;
    DottedPair(k, x, y);
    TwiceIsForked(k, x, y, 1);
    TwiceIsForked(k, x, y, 2);
    ForkedCollides([k], [x, y]);
  }

  lemma PlainTellsApart(allowed: string -> bool)
    requires forall k :: allowed(k) ==> PlainKey(k)
    ensures TellsApart(allowed)
  {
    hide Dotted, PlainKey;
    forall p, q | Over(p, allowed) && Over(q, allowed) && Unrelated(p, q)
      ensures Dotted(p) != Dotted(q)
    {
      if Dotted(p) == Dotted(q) {
        DottedUnique(p, q);
      }
    }
  }

  lemma PlainKeysDistinct(base: Json, variant: Json)
    requires KeysWithin(base, PlainKey) && KeysWithin(variant, PlainKey)
    ensures DistinctKeys(Diff(base, variant))
  {
    PlainTellsApart(PlainKey);
    ToldApartDistinct(base, variant, PlainKey);
  }

  /** With a key come the pieces around each of its dots. */
  ghost predicate ClosedUnderPieces(allowed: string -> bool)
  {
    forall k, i :: allowed(k) && 0 <= i < |k| && k[i] == '.' ==> allowed(k[..i]) && allowed(k[i + 1..])
  }

  /** A key that is not plain, or any key besides the empty one, reads like two keys in a row. */
  lemma ReadsLikeTwo(allowed: string -> bool, k: string, z: string) returns (a: string, x: string, y: string)
    requires ClosedUnderPieces(allowed) && allowed(k) && !PlainKey(k) && allowed(z) && z != ""
    ensures allowed(a) && allowed(x) && allowed(y) && a != x && a == if x == "" then y else x + "." + y
  {
    a, x, y := z, "", z;
    if k != "" {
      var i :| 0 <= i < |k| && k[i] == '.';
      assert allowed(k[..i]) && allowed(k[i + 1..]);
      if i > 0 {
        a, x, y := k, k[..i], k[i + 1..];
        assert x + "." + y == k;
      } else {
        assert k[..i] == "";
      }
    }
  }

  lemma LookAlike(allowed: string -> bool, k: string, z: string)
    requires ClosedUnderPieces(allowed) && allowed(k) && !PlainKey(k) && allowed(z) && z != ""
    ensures !TellsApart(allowed)
  {
    hide Dotted, Unrelated, Over, ClosedUnderPieces, PlainKey;
    var a, x, y := ReadsLikeTwo(allowed, k, z);
    DottedPair(a, x, y);
    PairUnrelated(a, x, y);
    PairOver(allowed, a, x, y);
  }

  lemma PairOver(allowed: string -> bool, k: string, x: string, y: string)
    requires allowed(k) && allowed(x) && allowed(y)
    ensures Over([k], allowed) && Over([x, y], allowed)
  {}

  /**
   Where the keys include the pieces of the dotted ones, and are not just the empty key, they tell
   paths apart if and only if all of them are plain.
   */
  lemma PlainExactly(allowed: string -> bool, z: string)
    requires ClosedUnderPieces(allowed) && allowed(z) && z != ""
    ensures TellsApart(allowed) <==> forall k :: allowed(k) ==> PlainKey(k)
  {
    hide TellsApart, PlainKey;
    if forall k :: allowed(k) ==> PlainKey(k) {
      PlainTellsApart(allowed);
    } else {
      var k :| allowed(k) && !PlainKey(k);
      LookAlike(allowed, k, z);
    }
  }
}
