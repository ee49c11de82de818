/** The nested dictionary that `csv_to_json` builds, and `LocresExporter.__add_child`,
    which places one value at the end of a path of keys (locresexporter/exporter.py). */
module KeyTree {
  import opened Wrappers

  /** A value of the exported document: a translated string, or a nested object. An
      object is a list of entries in insertion order, as a Python `dict` keeps them. */
  datatype Node = Leaf(text: string) | Branch(entries: seq<(string, Node)>)

  type Entries = seq<(string, Node)>

  /** The keys of an object, in order. */
  function Keys(es: Entries): (ks: seq<string>)
    ensures |ks| == |es|
    decreases |es|
  {
    if es == [] then [] else [es[0].0] + Keys(es[1..])
  }

  predicate Distinct(ks: seq<string>)
  {
    forall i, j :: 0 <= i < j < |ks| ==> ks[i] != ks[j]
  }

  /** A well-formed document has no key twice in any object. */
  predicate WellFormed(n: Node)
    decreases n
  {
    match n
    case Leaf(_) => true
    case Branch(es) => Distinct(Keys(es)) && forall i :: 0 <= i < |es| ==> WellFormed(es[i].1)
  }

  /** Where a key goes in an object's key order: it keeps its place if present, and is
      appended otherwise. */
  function AddKey(ks: seq<string>, k: string): (r: seq<string>)
  {
    if k in ks then ks else ks + [k]
  }

  /** `d.get(k)`. */
  function Get(es: Entries, k: string): (r: Option<Node>)
    ensures r.None? <==> k !in Keys(es)
    ensures r.Some? ==> (k, r.value) in es
    decreases |es|
  {
    if es == [] then None
    else if es[0].0 == k then Some(es[0].1)
    else Get(es[1..], k)
  }

  /** `d[k] = n`: the key maps to `n`, every other key is unaffected, and the key order
      changes only by appending a new key. */
  function Set(es: Entries, k: string, n: Node): (r: Entries)
    ensures Keys(r) == AddKey(Keys(es), k)
    ensures Get(r, k) == Some(n)
    decreases |es|
  {
    if es == [] then [(k, n)]
    else if es[0].0 == k then
      var r := [(k, n)] + es[1..];
      assert r[1..] == es[1..];
      assert Keys(r) == Keys(es);
      r
    else
      var tail := Set(es[1..], k, n);
      var r := [es[0]] + tail;
      assert r[1..] == tail;
      AddKeyCons(es[0].0, Keys(es[1..]), k);
      r
  }

  /** A key other than the new one, in front, stays in front. */
  lemma AddKeyCons(x: string, ks: seq<string>, k: string)
    requires x != k
    ensures AddKey([x] + ks, k) == [x] + AddKey(ks, k)
  {
    assert k in [x] + ks <==> k in ks;
  }

  /** `d[k] = n` leaves every other key as it was. */
  lemma {:induction false} SetFrame(es: Entries, k: string, n: Node, other: string)
    requires other != k
    ensures Get(Set(es, k, n), other) == Get(es, other)
    decreases |es|
  {
    if es != [] && es[0].0 != k {
      SetFrame(es[1..], k, n, other);
    }
  }

  /** The node reached from `n` along a path of keys, if any. */
  function Find(n: Node, path: seq<string>): (r: Option<Node>)
    decreases |path|
  {
    if path == [] then Some(n)
    else
      match n
      case Leaf(_) => None
      case Branch(es) =>
        match Get(es, path[0])
        case None => None
        case Some(m) => Find(m, path[1..])
  }

  /** A string value sits at this path of the object. */
  predicate LeafAt(es: Entries, path: seq<string>)
  {
    var r := Find(Branch(es), path);
    r.Some? && r.value.Leaf?
  }

  /** No proper, non-empty prefix of the path names a string value. */
  predicate NoLeafOnPath(es: Entries, path: seq<string>)
  {
    forall j :: 1 <= j < |path| ==> !LeafAt(es, path[..j])
  }

  /** Insertion fails exactly when a prefix of the path already holds a string: Python
      then attempts `.get` or item assignment on a `str`. */
  datatype InsertError = LeafOnPath(prefix: seq<string>)

  /** `__add_child(es, path, value)`. With one key left, that key is assigned the value.
      Otherwise the object under the first key (a fresh empty one if missing) is
      assigned back under that key and the rest of the path goes into it. */
  function Insert(es: Entries, path: seq<string>, value: string): (r: Result<Entries, InsertError>)
    requires |path| >= 1
    ensures r.Ok? ==> Keys(r.value) == AddKey(Keys(es), path[0])
    ensures r.Err? ==> 1 <= |r.error.prefix| < |path| && r.error.prefix == path[..|r.error.prefix|]
    decreases |path|
  {
    var k := path[0];
    if |path| == 1 then Ok(Set(es, k, Leaf(value)))
    else
      match Get(es, k).GetOr(Branch([]))
      case Leaf(_) => Err(LeafOnPath([k]))
      case Branch(sub) =>
        match Insert(sub, path[1..], value)
        case Err(LeafOnPath(p)) => Err(LeafOnPath([k] + p))
        case Ok(sub') => Ok(Set(es, k, Branch(sub')))
  }

  lemma FindUnder(es: Entries, k: string, q: seq<string>)
    ensures Find(Branch(es), [k] + q) == match Get(es, k) case None => None case Some(m) => Find(m, q)
  {
    assert ([k] + q)[1..] == q;
  }

  lemma PrefixCons(a: string, q: seq<string>, b: string, p: seq<string>)
    ensures [a] + q <= [b] + p <==> a == b && q <= p
    ensures [a] + q == [b] + p <==> a == b && q == p
  {
    if [a] + q <= [b] + p {
      assert ([a] + q)[0] == ([b] + p)[0];
      assert q == ([a] + q)[1..] && ([b] + p)[1..] == p;
      assert p[..|q|] == ([b] + p)[..|q| + 1][1..];
    }
    if a == b && q <= p {
      assert [b] + p[..|q|] == ([b] + p)[..|q| + 1];
    }
    if [a] + q == [b] + p {
      assert ([a] + q)[0] == ([b] + p)[0];
      assert q == ([a] + q)[1..] && ([b] + p)[1..] == p;
    }
  }

  lemma PathSplit(path: seq<string>, j: nat)
    requires 1 <= j <= |path|
    ensures path[..j] == [path[0]] + path[1..][..j - 1]
  {
  }

  /** Nothing below the root of an empty object. */
  lemma FindInEmpty(q: seq<string>)
    requires |q| >= 1
    ensures Find(Branch([]), q) == None
  {
  }

  /** Insertion succeeds exactly when no proper prefix of the path names a string, and
      a failure names such a prefix. */
  lemma {:induction false} InsertSucceedsIff(es: Entries, path: seq<string>, value: string)
    requires |path| >= 1
    ensures Insert(es, path, value).Ok? <==> NoLeafOnPath(es, path)
    ensures Insert(es, path, value).Err? ==> LeafAt(es, Insert(es, path, value).error.prefix)
    decreases |path|
  {
    if |path| > 1 {
      var k, rest := path[0], path[1..];
      assert path[..1] == [k] + [];
      FindUnder(es, k, []);
      match Get(es, k)
      case None =>
        forall j | 1 <= j < |path| ensures !LeafAt(es, path[..j]) {
          PathSplit(path, j);
          FindUnder(es, k, rest[..j - 1]);
        }
        forall j | 1 <= j < |rest| ensures !LeafAt([], rest[..j]) {
          FindInEmpty(rest[..j]);
        }
        InsertSucceedsIff([], rest, value);
      case Some(Leaf(_)) =>
        assert LeafAt(es, path[..1]);
      case Some(Branch(sub)) =>
        InsertSucceedsIff(sub, rest, value);
        forall j | 2 <= j < |path| ensures LeafAt(es, path[..j]) == LeafAt(sub, rest[..j - 1]) {
          PathSplit(path, j);
          FindUnder(es, k, rest[..j - 1]);
        }
        if NoLeafOnPath(sub, rest) {
          forall j | 1 <= j < |path| ensures !LeafAt(es, path[..j]) {
            if j >= 2 {
              assert !LeafAt(sub, rest[..j - 1]);
            }
          }
        } else {
          var j :| 1 <= j < |rest| && LeafAt(sub, rest[..j]);
          assert LeafAt(es, path[..j + 1]);
        }
        match Insert(sub, rest, value)
        case Ok(_) =>
        case Err(LeafOnPath(p)) =>
          FindUnder(es, k, p);
    }
  }

  /** What a successful insertion changes, seen through lookups of any path `q`: the
      path itself now holds the value, its proper prefixes hold objects, everything
      below the path is gone, and every path that branches off elsewhere is untouched. */
  lemma {:induction false} InsertFind(es: Entries, path: seq<string>, value: string, q: seq<string>)
    requires |path| >= 1 && Insert(es, path, value).Ok?
    ensures var after := Find(Branch(Insert(es, path, value).value), q);
      && (q == path ==> after == Some(Leaf(value)))
      && (q < path ==> after.Some? && after.value.Branch?)
      && (path < q ==> after == None)
      && (!(q <= path) && !(path <= q) ==> after == Find(Branch(es), q))
    decreases |path|
  {
    if q != [] {
      var k, rest := path[0], path[1..];
      var r := Insert(es, path, value).value;
      var a, q' := q[0], q[1..];
      assert q == [a] + q' && path == [k] + rest;
      PrefixCons(a, q', k, rest);
      PrefixCons(k, rest, a, q');
      FindUnder(r, a, q');
      FindUnder(es, a, q');
      if a != k {
        InsertElsewhere(es, path, value, a);
        assert !(q <= path) && !(path <= q);
      } else if |path| == 1 {
        assert Get(r, k) == Some(Leaf(value));
        if q' == [] {
          assert q == path;
        } else {
          assert path < q;
        }
      } else {
        var next := Get(es, k).GetOr(Branch([]));
        var sub := next.entries;
        InsertFind(sub, rest, value, q');
        assert (q == path) == (q' == rest);
        assert (q < path) == (q' < rest);
        assert (path < q) == (rest < q');
        if Get(es, k).None? && !(q' <= rest) && !(rest <= q') {
          FindInEmpty(q');
        }
      }
    }
  }

  /** A successful insertion leaves every key other than the path's first as it was. */
  lemma InsertElsewhere(es: Entries, path: seq<string>, value: string, a: string)
    requires |path| >= 1 && Insert(es, path, value).Ok? && a != path[0]
    ensures Get(Insert(es, path, value).value, a) == Get(es, a)
  {
    var k := path[0];
    if |path| == 1 {
      SetFrame(es, k, Leaf(value), a);
    } else {
      var sub := Get(es, k).GetOr(Branch([])).entries;
      SetFrame(es, k, Branch(Insert(sub, path[1..], value).value), a);
    }
  }

  /** The key order of the object at a path, or nothing when no object is there. */
  function BranchKeys(es: Entries, path: seq<string>): (r: seq<string>)
  {
    match Find(Branch(es), path)
    case Some(Branch(c)) => Keys(c)
    case _ => []
  }

  /** Key order along the path: at every level the path passes through, its key keeps
      its place if it was there and is appended at the end if it is new (an object the
      insertion creates holds just that key). */
  lemma {:induction false} InsertKeyOrder(es: Entries, path: seq<string>, value: string, j: nat)
    requires |path| >= 1 && Insert(es, path, value).Ok? && j < |path|
    ensures BranchKeys(Insert(es, path, value).value, path[..j])
         == AddKey(BranchKeys(es, path[..j]), path[j])
    decreases |path|
  {
    if j > 0 {
      var k, rest := path[0], path[1..];
      var r := Insert(es, path, value).value;
      PathSplit(path, j);
      FindUnder(r, k, rest[..j - 1]);
      FindUnder(es, k, rest[..j - 1]);
      var sub := Get(es, k).GetOr(Branch([])).entries;
      InsertKeyOrder(sub, rest, value, j - 1);
      if Get(es, k).None? && j > 1 {
        FindInEmpty(rest[..j - 1]);
      }
    }
  }

  lemma AddKeyDistinct(ks: seq<string>, k: string)
    requires Distinct(ks)
    ensures Distinct(AddKey(ks, k))
  {
  }

  /** Every entry after `d[k] = n` is the new one or an old one. */
  lemma {:induction false} SetEntries(es: Entries, k: string, n: Node)
    ensures forall e :: e in Set(es, k, n) ==> e.1 == n || e in es
    decreases |es|
  {
    if es != [] && es[0].0 != k {
      SetEntries(es[1..], k, n);
    }
  }

  lemma SetWellFormed(es: Entries, k: string, n: Node)
    requires WellFormed(Branch(es)) && WellFormed(n)
    ensures WellFormed(Branch(Set(es, k, n)))
  {
    var r := Set(es, k, n);
    AddKeyDistinct(Keys(es), k);
    SetEntries(es, k, n);
    forall i | 0 <= i < |r| ensures WellFormed(r[i].1) {
      assert r[i] in r;
      if r[i].1 != n {
        var i' :| 0 <= i' < |es| && es[i'] == r[i];
        assert WellFormed(es[i'].1);
      }
    }
  }

  lemma GetWellFormed(es: Entries, k: string)
    requires WellFormed(Branch(es)) && Get(es, k).Some?
    ensures WellFormed(Get(es, k).value)
  {
    assert (k, Get(es, k).value) in es;
    var i :| 0 <= i < |es| && es[i] == (k, Get(es, k).value);
    assert WellFormed(es[i].1);
  }

  /** Insertion keeps every key unique within its object. */
  lemma {:induction false} InsertWellFormed(es: Entries, path: seq<string>, value: string)
    requires |path| >= 1 && WellFormed(Branch(es)) && Insert(es, path, value).Ok?
    ensures WellFormed(Branch(Insert(es, path, value).value))
    decreases |path|
  {
    var k := path[0];
    if |path| == 1 {
      SetWellFormed(es, k, Leaf(value));
    } else {
      var sub := Get(es, k).GetOr(Branch([])).entries;
      if Get(es, k).Some? {
        GetWellFormed(es, k);
      }
      InsertWellFormed(sub, path[1..], value);
      SetWellFormed(es, k, Branch(Insert(sub, path[1..], value).value));
    }
  }

  /** The nesting a path makes in an otherwise empty object: `{x: {y: {z: v}}}`. */
  function Chain(path: seq<string>, value: string): (r: Node)
    decreases |path|
  {
    if path == [] then Leaf(value) else Branch([(path[0], Chain(path[1..], value))])
  }

  /** Into an empty object, a path inserts a single chain of fresh objects. */
  lemma {:induction false} InsertIntoEmpty(path: seq<string>, value: string)
    requires |path| >= 1
    ensures Insert([], path, value) == Ok([(path[0], Chain(path[1..], value))])
    decreases |path|
  {
    if |path| > 1 {
      InsertIntoEmpty(path[1..], value);
    }
  }

  lemma NoLeafOnPrefix(es: Entries, path: seq<string>, q: seq<string>)
    requires NoLeafOnPath(es, path) && q < path && |q| >= 1
    ensures !LeafAt(es, q)
  {
    assert path[..|q|] == q;
  }

  /** A string value survives an insertion whose path is neither it nor a prefix of it. */
  lemma InsertKeepsLeaf(es: Entries, path: seq<string>, value: string, q: seq<string>, w: string)
    requires |path| >= 1 && Insert(es, path, value).Ok?
    requires Find(Branch(es), q) == Some(Leaf(w)) && !(path <= q)
    ensures Find(Branch(Insert(es, path, value).value), q) == Some(Leaf(w))
  {
    InsertFind(es, path, value, q);
    if q < path {
      InsertSucceedsIff(es, path, value);
      NoLeafOnPrefix(es, path, q);
      assert false;
    }
  }
}
