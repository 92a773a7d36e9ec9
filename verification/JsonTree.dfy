/**
 JSON trees for crates/redis-web-bench/src/spec.rs: values, paths, the key order of a `BTreeSet`,
 and reading and writing one path.
 */
module JsonTree {
  import opened Bytes

  datatype Json =
    | Null
    | Bool(b: bool)
    | Number(n: int)
    | Text(s: string)
    | Array(items: seq<Json>)
    | Object(fields: map<string, Json>)

  type Path = seq<string>

  /** The value a path leads to, through objects only. */
  function Get(j: Json, path: Path): (r: Option<Json>)
    decreases |path|
  {
    if path == [] then Some(j)
    else if j.Object? && path[0] in j.fields then Get(j.fields[path[0]], path[1..])
    else None
  }

  /** Sets the value at a path, or removes it; the parent must exist. */
  function Put(j: Json, path: Path, v: Option<Json>): (r: Json)
    decreases |path|
  {
    if path == [] then (if v.Some? then v.value else j)
    else if !j.Object? then j
    else
      var k := path[0];
      if |path| == 1 then
        (if v.Some? then Object(j.fields[k := v.value]) else Object(j.fields - {k}))
      else if k in j.fields then Object(j.fields[k := Put(j.fields[k], path[1..], v)])
      else j
  }

  // ---------------------------------------------------------------------------------------
  // Key order
  // ---------------------------------------------------------------------------------------

  /** Lexicographic order by code point, which is Rust's order on strings. */
  predicate AtMost(a: string, b: string)
  {
    a == [] || (b != [] && (a[0] < b[0] || (a[0] == b[0] && AtMost(a[1..], b[1..]))))
  }

  /** A prefix comes first; otherwise the first difference decides, the smaller code point first. */
  lemma {:induction false} OrderExactly(a: string, b: string)
    ensures AtMost(a, b) <==> a <= b || exists i :: 0 <= i < |a| && i < |b| && a[..i] == b[..i] && a[i] < b[i]
  {
    if a != [] && b != [] {
      if a[0] == b[0] {
        OrderExactly(a[1..], b[1..]);
        assert a == [a[0]] + a[1..] && b == [b[0]] + b[1..];
        assert a <= b <==> a[1..] <= b[1..] by {
          assert |a| <= |b| ==> (a == b[..|a|] <==> a[1..] == b[1..][..|a| - 1]);
        }
        OrderTail(a, b);
      } else if a[0] < b[0] {
        assert a[..0] == b[..0];
      } else {
        forall i | 0 <= i < |a| && i < |b| && a[..i] == b[..i]
          ensures !(a[i] < b[i])
        {
          PrefixFirst(a, b, i);
        }
      }
    }
  }

  lemma PrefixFirst(a: string, b: string, i: nat)
    requires i < |a| && i < |b| && a[..i] == b[..i]
    ensures i > 0 ==> a[0] == b[0]
  {
    assert i > 0 ==> a[0] == a[..i][0] == b[..i][0];
  }

  lemma OrderTail(a: string, b: string)
    requires a != [] && b != [] && a[0] == b[0]
    ensures (exists i :: 0 <= i < |a| && i < |b| && a[..i] == b[..i] && a[i] < b[i])
       <==> (exists i :: 0 <= i < |a| - 1 && i < |b| - 1 && a[1..][..i] == b[1..][..i] && a[1..][i] < b[1..][i])
  {
    var x, y := a[1..], b[1..];
    if i :| 0 <= i < |a| && i < |b| && a[..i] == b[..i] && a[i] < b[i] {
      assert x[..i - 1] == a[..i][1..] && y[..i - 1] == b[..i][1..];
      assert x[i - 1] < y[i - 1];
    }
    if i :| 0 <= i < |x| && i < |y| && x[..i] == y[..i] && x[i] < y[i] {
      assert a[..i + 1] == [a[0]] + x[..i] && b[..i + 1] == [b[0]] + y[..i];
      assert a[i + 1] < b[i + 1];
    }
  }

  lemma {:induction false} AtMostTotal(a: string, b: string)
    ensures AtMost(a, b) || AtMost(b, a)
  {
    if a != [] && b != [] {
      AtMostTotal(a[1..], b[1..]);
    }
  }

  lemma {:induction false} AtMostAntisymmetric(a: string, b: string)
    requires AtMost(a, b) && AtMost(b, a)
    ensures a == b
  {
    if a != [] && b != [] {
      AtMostAntisymmetric(a[1..], b[1..]);
      assert a == [a[0]] + a[1..] && b == [b[0]] + b[1..];
    }
  }

  lemma {:induction false} AtMostTransitive(a: string, b: string, c: string)
    requires AtMost(a, b) && AtMost(b, c)
    ensures AtMost(a, c)
  {
    if a != [] && a[0] == b[0] == c[0] {
      AtMostTransitive(a[1..], b[1..], c[1..]);
    }
  }

  ghost predicate IsLeast(m: string, keys: set<string>)
  {
    m in keys && forall k :: k in keys ==> AtMost(m, k)
  }

  lemma {:induction false} LeastExists(keys: set<string>)
    requires keys != {}
    ensures exists m :: IsLeast(m, keys)
  {
    var m :| m in keys;
    AtMostTotal(m, m);
    if keys != {m} {
      LeastExists(keys - {m});
      var n :| IsLeast(n, keys - {m});
      AtMostTotal(m, n);
      if AtMost(m, n) {
        forall k | k in keys
          ensures AtMost(m, k)
        {
          if k != m {
            AtMostTransitive(m, n, k);
          }
        }
      } else {
        m := n;
      }
    }
    assert IsLeast(m, keys);
  }

  ghost function Least(keys: set<string>): (m: string)
    requires keys != {}
    ensures IsLeast(m, keys)
  {
    LeastExists(keys);
    var m :| IsLeast(m, keys);
    m
  }

  /** The iteration order of a `BTreeSet` of keys. */
  ghost function InOrder(keys: set<string>): (ks: seq<string>)
    ensures forall k :: k in ks <==> k in keys
    ensures Distinct(ks)
    ensures forall i, j :: 0 <= i < j < |ks| ==> AtMost(ks[i], ks[j])
  {
    if keys == {} then []
    else
      var m := Least(keys);
      var rest := InOrder(keys - {m});
      [m] + rest
  }

  /** Picks the least key by scanning. */
  method TakeLeast(keys: set<string>) returns (m: string)
    requires keys != {}
    ensures m == Least(keys)
  {
    m :| m in keys;
    var rest := keys - {m};
    AtMostTotal(m, m);
    while rest != {}
      invariant rest <= keys && m in keys && IsLeast(m, keys - rest)
      decreases rest
    {
      var k :| k in rest;
      AtMostTotal(m, k);
      AtMostTotal(k, k);
      if !AtMost(m, k) {
        forall x | x in keys - rest
          ensures AtMost(k, x)
        {
          AtMostTransitive(k, m, x);
        }
        m := k;
      }
      rest := rest - {k};
    }
    AtMostAntisymmetric(m, Least(keys));
  }
}
