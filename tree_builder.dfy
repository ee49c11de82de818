/** The row loop of `LocresExporter.csv_to_json` (locresexporter/exporter.py): every CSV
    row's key is normalised, split into a path and placed in one growing document. */
module TreeBuilder {
  import opened Wrappers
  import opened Text
  import opened KeyTree

  /** One CSV row, reduced to its `key` and `source` columns. */
  datatype Row = Row(key: string, source: string)

  /** The agent name KAY/O would otherwise be split in two. */
  const KayoWithSlash: string := "KAY/O"
  const KayoWithoutSlash: string := "KAYO"
  const KeySeparator: string := "/"

  /** `key.replace("KAY/O", "KAYO")`: a key without `KAY/O` is kept as it is, and the
      key never grows. */
  function NormalizeKey(key: string): (r: string)
    ensures !Occurs(key, KayoWithSlash) ==> r == key
    ensures |r| <= |key|
  {
    ReplaceNeverLengthens(key, KayoWithSlash, KayoWithoutSlash);
    Replace(key, KayoWithSlash, KayoWithoutSlash)
  }

  /** `key.replace("KAY/O", "KAYO").split("/")`: never empty. */
  function KeyPath(key: string): (path: seq<string>)
    ensures |path| >= 1
  {
    Split(NormalizeKey(key), KeySeparator)
  }

  /** No segment holds a `/`, and joining the segments with `/` gives back the
      normalised key. */
  lemma KeyPathSegments(key: string)
    ensures forall i :: 0 <= i < |KeyPath(key)| ==> '/' !in KeyPath(key)[i]
    ensures Join(KeyPath(key), KeySeparator) == NormalizeKey(key)
  {
    var path := KeyPath(key);
    JoinOfSplit(NormalizeKey(key), KeySeparator);
    SplitPiecesAreFree(NormalizeKey(key), KeySeparator);
    forall i | 0 <= i < |path| ensures '/' !in path[i] {
      OccursChar(path[i], '/');
    }
  }

  /** The row whose insertion failed, and the prefix of its path that held a string. */
  datatype BuildError = RowFailed(row: nat, prefix: seq<string>)

  /** The document after inserting the rows in order; the first failing row aborts the
      whole conversion, as the exception does in the source. */
  function Build(rows: seq<Row>): (r: Result<Entries, BuildError>)
    ensures r.Err? ==> r.error.row < |rows|
    decreases |rows|
  {
    if rows == [] then Ok([])
    else
      var n := |rows| - 1;
      match Build(rows[..n])
      case Err(e) => Err(e)
      case Ok(t) =>
        match Insert(t, KeyPath(rows[n].key), rows[n].source)
        case Err(LeafOnPath(p)) => Err(RowFailed(n, p))
        case Ok(t') => Ok(t')
  }

  /** A failure before the last row is the failure of the whole. */
  lemma BuildFailedBeforeLast(rows: seq<Row>)
    requires rows != [] && Build(rows[..|rows| - 1]).Err?
    ensures Build(rows) == Build(rows[..|rows| - 1])
  {
  }

  /** Once a prefix of the rows has failed, later rows change nothing. */
  lemma {:induction false} BuildFailureIsFinal(rows: seq<Row>, i: nat)
    requires i <= |rows| && Build(rows[..i]).Err?
    ensures Build(rows) == Build(rows[..i])
    decreases |rows|
  {
    if i < |rows| {
      var n := |rows| - 1;
      assert rows[..n][..i] == rows[..i];
      BuildFailureIsFinal(rows[..n], i);
      BuildFailedBeforeLast(rows);
    } else {
      assert rows[..i] == rows;
    }
  }

  /** The loop of `csv_to_json` over the rows, accumulating into one document. */
  method BuildTree(rows: seq<Row>) returns (r: Result<Entries, BuildError>)
    ensures r == Build(rows)
  {
    var doc: Entries := [];
    var i := 0;
    while i < |rows|
      invariant 0 <= i <= |rows|
      invariant Build(rows[..i]) == Ok(doc)
    {
      assert rows[..i + 1][..i] == rows[..i];
      match Insert(doc, KeyPath(rows[i].key), rows[i].source)
      case Err(LeafOnPath(p)) =>
        r := Err(RowFailed(i, p));
        BuildFailureIsFinal(rows, i + 1);
        return;
      case Ok(next) =>
        doc := next;
      i := i + 1;
    }
    assert rows[..|rows|] == rows;
    r := Ok(doc);
  }

  /** The built document never has a key twice in one object. */
  lemma {:induction false} BuildWellFormed(rows: seq<Row>)
    requires Build(rows).Ok?
    ensures WellFormed(Branch(Build(rows).value))
    decreases |rows|
  {
    if rows != [] {
      var n := |rows| - 1;
      BuildWellFormed(rows[..n]);
      InsertWellFormed(Build(rows[..n]).value, KeyPath(rows[n].key), rows[n].source);
    }
  }

  /** A failure names the first row that could not be placed: every earlier row was
      placed, and the reported prefix of its path held a string at that point. */
  lemma {:induction false} BuildFailure(rows: seq<Row>)
    requires Build(rows).Err?
    ensures var RowFailed(i, p) := Build(rows).error;
      && i < |rows| && Build(rows[..i]).Ok?
      && p < KeyPath(rows[i].key) && |p| >= 1
      && LeafAt(Build(rows[..i]).value, p)
    decreases |rows|
  {
    var n := |rows| - 1;
    if Build(rows[..n]).Err? {
      BuildFailure(rows[..n]);
      var i := Build(rows).error.row;
      assert rows[..n][..i] == rows[..i];
    } else {
      var t := Build(rows[..n]).value;
      InsertSucceedsIff(t, KeyPath(rows[n].key), rows[n].source);
    }
  }

  /** Later rows win: a row's value is found at its path in the document unless some
      later row's path is that path or a prefix of it. */
  lemma {:induction false} BuildLastWriteWins(rows: seq<Row>, i: nat)
    requires i < |rows| && Build(rows).Ok?
    requires forall j :: i < j < |rows| ==> !(KeyPath(rows[j].key) <= KeyPath(rows[i].key))
    ensures Find(Branch(Build(rows).value), KeyPath(rows[i].key)) == Some(Leaf(rows[i].source))
    decreases |rows|
  {
    var n := |rows| - 1;
    var t := Build(rows[..n]).value;
    if i == n {
      InsertFind(t, KeyPath(rows[n].key), rows[n].source, KeyPath(rows[i].key));
    } else {
      var prefix := rows[..n];
      forall j | i < j < n ensures !(KeyPath(prefix[j].key) <= KeyPath(prefix[i].key)) {
        assert prefix[j] == rows[j];
      }
      assert prefix[i] == rows[i];
      BuildLastWriteWins(prefix, i);
      InsertKeepsLeaf(t, KeyPath(rows[n].key), rows[n].source, KeyPath(rows[i].key), rows[i].source);
    }
  }

  /** The keys of the top-level object in first-seen order of the rows' first segments. */
  function FirstSeenHeads(rows: seq<Row>): (r: seq<string>)
    decreases |rows|
  {
    if rows == [] then []
    else
      var n := |rows| - 1;
      AddKey(FirstSeenHeads(rows[..n]), KeyPath(rows[n].key)[0])
  }

  /** First-seen order is duplicate-free and holds exactly the first segments. */
  lemma {:induction false} FirstSeenHeadsAreTheHeads(rows: seq<Row>)
    ensures Distinct(FirstSeenHeads(rows))
    ensures forall j :: 0 <= j < |rows| ==> KeyPath(rows[j].key)[0] in FirstSeenHeads(rows)
    ensures forall k :: k in FirstSeenHeads(rows) ==>
      exists j :: 0 <= j < |rows| && KeyPath(rows[j].key)[0] == k
    decreases |rows|
  {
    if rows != [] {
      var n := |rows| - 1;
      FirstSeenHeadsAreTheHeads(rows[..n]);
      AddKeyDistinct(FirstSeenHeads(rows[..n]), KeyPath(rows[n].key)[0]);
      forall j | 0 <= j < n ensures rows[..n][j] == rows[j] { }
      forall k | k in FirstSeenHeads(rows)
        ensures exists j :: 0 <= j < |rows| && KeyPath(rows[j].key)[0] == k
      {
        if k in FirstSeenHeads(rows[..n]) {
          var j :| 0 <= j < n && KeyPath(rows[..n][j].key)[0] == k;
          assert KeyPath(rows[j].key)[0] == k;
        } else {
          assert KeyPath(rows[n].key)[0] == k;
        }
      }
    }
  }

  /** Key order reaches the document: its top-level keys are the rows' first segments in
      first-seen order (what `json.dump` writes when `sort_keys` is false). */
  lemma {:induction false} BuildRootOrder(rows: seq<Row>)
    requires Build(rows).Ok?
    ensures Keys(Build(rows).value) == FirstSeenHeads(rows)
    decreases |rows|
  {
    if rows != [] {
      BuildRootOrder(rows[..|rows| - 1]);
    }
  }

  /** A key naming KAY/O once, with no other `/` or `K` around it, stays one segment. */
  lemma KayoStaysOneSegment(a: string, b: string)
    requires '/' !in a && '/' !in b && 'K' !in a && 'K' !in b
    ensures KeyPath(a + KayoWithSlash + b) == [a + KayoWithoutSlash + b]
  {
    ReplaceLoneOccurrence(a, KayoWithSlash, b, KayoWithoutSlash);
    var s := a + KayoWithoutSlash + b;
    assert '/' !in s;
    SplitOfJoin([s], KeySeparator);
  }

  /** Normalisation leaves no `KAY/O` anywhere in the key: the `KAYO` it writes cannot
      combine with its surroundings into a new one. */
  lemma {:induction false} NoKayoLeft(key: string)
    ensures !Occurs(NormalizeKey(key), KayoWithSlash)
    decreases |key|
  {
    var pat, rep := KayoWithSlash, KayoWithoutSlash;
    if key == [] {
    } else if pat <= key {
      var t := NormalizeKey(key[|pat|..]);
      NoKayoLeft(key[|pat|..]);
      assert NormalizeKey(key) == rep + t;
      OccursAfter('O', t, pat);
      OccursAfter('Y', ['O'] + t, pat);
      OccursAfter('A', ['Y'] + (['O'] + t), pat);
      assert (rep + t)[1..] == ['A'] + (['Y'] + (['O'] + t));
      assert (rep + t)[3] != pat[3];
    } else {
      var t := NormalizeKey(key[1..]);
      NoKayoLeft(key[1..]);
      assert NormalizeKey(key) == [key[0]] + t;
      if key[0] != 'K' {
        OccursAfter(key[0], t, pat);
      } else {
        if pat <= [key[0]] + t {
          assert pat[1..] <= t;
          ReplaceKeepsPrefixBack(key[1..], pat, rep, pat[1..]);
          assert false;
        }
        assert ([key[0]] + t)[1..] == t;
      }
    }
  }

  predicate EndsWith(s: string, suffix: string)
  {
    |suffix| <= |s| && s[|s| - |suffix|..] == suffix
  }

  /** A segment ending in `KAY`, the separator and a segment starting with `O` spell
      `KAY/O`. */
  lemma KayoAtSeam(l: string, r: string)
    requires EndsWith(l, "KAY") && "O" <= r
    ensures Occurs(l + KeySeparator + r, KayoWithSlash)
  {
    var front := l[..|l| - 3];
    assert l == front + "KAY";
    assert r == "O" + r[1..];
    assert l + KeySeparator + r == front + KayoWithSlash + r[1..];
    OccursInMiddle(front, KayoWithSlash, r[1..]);
  }

  /** A segment ending in `KAY` followed by one starting with `O` puts `KAY/O` in the
      joined key. */
  lemma KayoAcrossSegments(parts: seq<string>, i: nat)
    requires i + 1 < |parts| && EndsWith(parts[i], "KAY") && "O" <= parts[i + 1]
    ensures Occurs(Join(parts, KeySeparator), KayoWithSlash)
  {
    JoinSplitAt(parts, KeySeparator, i);
    var left, right := parts[..i + 1], parts[i + 1..];
    assert left[|left| - 1] == parts[i] && right[0] == parts[i + 1];
    JoinEndsWithLast(left, KeySeparator);
    JoinStartsWithFirst(right, KeySeparator);
    KayoAtSeam(Join(left, KeySeparator), Join(right, KeySeparator));
  }

  /** `KAY` and `O` never end up in two neighbouring segments of a key path, however many
      segments the key has. */
  lemma KayoNeverSplit(key: string)
    ensures forall i :: 0 <= i < |KeyPath(key)| - 1 ==>
      !(EndsWith(KeyPath(key)[i], "KAY") && "O" <= KeyPath(key)[i + 1])
  {
    var path := KeyPath(key);
    KeyPathSegments(key);
    NoKayoLeft(key);
    forall i | 0 <= i < |path| - 1 ensures !(EndsWith(path[i], "KAY") && "O" <= path[i + 1]) {
      if EndsWith(path[i], "KAY") && "O" <= path[i + 1] {
        KayoAcrossSegments(path, i);
        assert false;
      }
    }
  }

  /** Rows none of whose paths is a proper prefix of another's never fail. */
  lemma {:induction false} NoFailureWithoutPrefixes(rows: seq<Row>)
    requires forall i, j :: 0 <= i < |rows| && 0 <= j < |rows| ==>
      !(KeyPath(rows[i].key) < KeyPath(rows[j].key))
    ensures Build(rows).Ok?
  {
    if Build(rows).Err? {
      BuildFailure(rows);
      var RowFailed(i, p) := Build(rows).error;
      LeafCameFromRow(rows[..i], p);
      assert false;
    }
  }

  /** Every string in the document was put there by some row with exactly that path. */
  lemma {:induction false} LeafCameFromRow(rows: seq<Row>, p: seq<string>)
    requires Build(rows).Ok? && LeafAt(Build(rows).value, p)
    ensures exists j :: 0 <= j < |rows| && KeyPath(rows[j].key) == p
    decreases |rows|
  {
    var n := |rows| - 1;
    if rows == [] {
      assert false;
    } else {
      var t := Build(rows[..n]).value;
      var last := KeyPath(rows[n].key);
      InsertFind(t, last, rows[n].source, p);
      if p != last {
        LeafCameFromRow(rows[..n], p);
        var j :| 0 <= j < n && KeyPath(rows[..n][j].key) == p;
        assert rows[..n][j] == rows[j];
      }
    }
  }

  /** A key without `/` is one segment, the key itself. */
  lemma KeyPathWithoutSlash(key: string)
    requires '/' !in key
    ensures KeyPath(key) == [key]
  {
    OccursNeedsChar(key, KayoWithSlash, '/');
    SplitOfJoin([key], KeySeparator);
  }

  /** Segments free of `/` whose `/`-joined key holds no `KAY/O` come back from that key
      unchanged. */
  lemma KeyPathOfSegments(segments: seq<string>)
    requires |segments| >= 1
    requires forall i :: 0 <= i < |segments| ==> '/' !in segments[i]
    requires !Occurs(Join(segments, KeySeparator), KayoWithSlash)
    ensures KeyPath(Join(segments, KeySeparator)) == segments
  {
    SplitOfJoin(segments, KeySeparator);
  }

  lemma KeyPathAB()
    ensures KeyPath("a/b") == ["a", "b"]
  {
    assert Join(["a", "b"], KeySeparator) == "a/b";
    OccursNeedsChar("a/b", KayoWithSlash, 'K');
    KeyPathOfSegments(["a", "b"]);
  }

  /** Three segments free of `/` and `O` come back from their `/`-joined key. */
  lemma KeyPathOfThree(x: string, y: string, z: string, key: string)
    requires '/' !in x && '/' !in y && '/' !in z && 'O' !in x && 'O' !in y && 'O' !in z
    requires key == x + KeySeparator + y + KeySeparator + z
    ensures KeyPath(key) == [x, y, z]
  {
    var segments := [x, y, z];
    JoinThree(x, y, z, KeySeparator);
    JoinKeepsAbsence(segments, KeySeparator, 'O');
    OccursNeedsChar(Join(segments, KeySeparator), KayoWithSlash, 'O');
    KeyPathOfSegments(segments);
  }

  /** An ordinary key with a capital `K` is split at every `/`. */
  lemma ExampleKilljoyPath()
    ensures KeyPath("Characters/Killjoy/Name") == ["Characters", "Killjoy", "Name"]
  {
    KeyPathOfThree("Characters", "Killjoy", "Name", "Characters/Killjoy/Name");
  }

  /** A `KAY/O` segment pair between two others becomes the one segment `KAYO`. */
  lemma KayoBetweenSegments(a: string, b: string, key: string)
    requires '/' !in a && '/' !in b && 'K' !in a && 'K' !in b
    requires key == a + KeySeparator + KayoWithSlash + KeySeparator + b
    ensures KeyPath(key) == [a, KayoWithoutSlash, b]
  {
    var front, back := a + KeySeparator, KeySeparator + b;
    ReplaceLoneOccurrence(front, KayoWithSlash, back, KayoWithoutSlash);
    assert key == front + KayoWithSlash + back;
    JoinThree(a, KayoWithoutSlash, b, KeySeparator);
    assert front + KayoWithoutSlash + back == a + KeySeparator + KayoWithoutSlash + KeySeparator + b;
    SplitOfJoin([a, KayoWithoutSlash, b], KeySeparator);
  }

  /** In a key of several segments, `KAY/O` becomes the one segment `KAYO`. */
  lemma ExampleKayoInPath()
    ensures KeyPath("Agents/KAY/O/Name") == ["Agents", "KAYO", "Name"]
  {
    KayoBetweenSegments("Agents", "Name", "Agents/KAY/O/Name");
  }

  /** Builds two rows from the document after the first. */
  lemma BuildTwo(first: Row, second: Row, afterFirst: Entries)
    requires Build([first]) == Ok(afterFirst)
    ensures Build([first, second]) == match Insert(afterFirst, KeyPath(second.key), second.source)
      case Err(LeafOnPath(p)) => Err(RowFailed(1, p))
      case Ok(t) => Ok(t)
  {
    assert [first, second][..1] == [first];
  }

  lemma BuildOne(row: Row)
    ensures Build([row]) == match Insert([], KeyPath(row.key), row.source)
      case Err(LeafOnPath(p)) => Err(RowFailed(0, p))
      case Ok(t) => Ok(t)
  {
    assert [row][..0] == [];
  }

  lemma SetFirst(k: string, m: Node, rest: Entries, n: Node)
    ensures Set([(k, m)] + rest, k, n) == [(k, n)] + rest
  {
    assert ([(k, m)] + rest)[1..] == rest;
  }

  lemma SetAfterOne(e: (string, Node), k: string, n: Node)
    requires e.0 != k
    ensures Set([e], k, n) == [e, (k, n)]
  {
    assert [e][1..] == [];
  }

  /** The document after the single row `a/b = 1`. */
  lemma BuildAB1()
    ensures Build([Row("a/b", "1")]) == Ok([("a", Branch([("b", Leaf("1"))]))])
  {
    KeyPathAB();
    BuildOne(Row("a/b", "1"));
    InsertIntoEmpty(["a", "b"], "1");
    assert ["a", "b"][1..] == ["b"];
    assert Chain(["b"], "1") == Branch([("b", Leaf("1"))]);
  }

  lemma InsertOverwritesAB()
    ensures Insert([("a", Branch([("b", Leaf("1"))]))], ["a", "b"], "2")
         == Ok([("a", Branch([("b", Leaf("2"))]))])
  {
    var inner: Entries := [("b", Leaf("1"))];
    var es: Entries := [("a", Branch(inner))];
    assert es[0].0 == "a" && es[1..] == [] && inner[1..] == [];
    assert Get(es, "a") == Some(Branch(inner));
    assert Set(inner, "b", Leaf("2")) == [("b", Leaf("2"))];
    assert ["a", "b"][1..] == ["b"];
    assert Insert(inner, ["b"], "2") == Ok([("b", Leaf("2"))]);
    assert Set(es, "a", Branch([("b", Leaf("2"))])) == [("a", Branch([("b", Leaf("2"))]))];
  }

  lemma InsertLeafOverBranch()
    ensures Insert([("a", Branch([("b", Leaf("1"))]))], ["a"], "2") == Ok([("a", Leaf("2"))])
  {
    var es: Entries := [("a", Branch([("b", Leaf("1"))]))];
    assert es[0].0 == "a" && es[1..] == [];
    assert Set(es, "a", Leaf("2")) == [("a", Leaf("2"))];
  }

  lemma InsertBranchOverLeaf()
    ensures Insert([("a", Leaf("2"))], ["a", "b"], "1") == Err(LeafOnPath(["a"]))
  {
    var es: Entries := [("a", Leaf("2"))];
    assert es[0].0 == "a";
    assert Get(es, "a") == Some(Leaf("2"));
  }

  lemma InsertNewSibling()
    ensures Insert([("b", Branch([("c", Leaf("1"))]))], ["a", "c"], "2")
         == Ok([("b", Branch([("c", Leaf("1"))])), ("a", Branch([("c", Leaf("2"))]))])
  {
    var es: Entries := [("b", Branch([("c", Leaf("1"))]))];
    assert es[0].0 == "b" && es[1..] == [];
    assert Get(es, "a") == None;
    assert ["a", "c"][1..] == ["c"];
    assert Insert([], ["c"], "2") == Ok([("c", Leaf("2"))]);
    SetAfterOne(es[0], "a", Branch([("c", Leaf("2"))]));
  }

  lemma InsertKayoOutro()
    ensures Insert([("KAYO.intro", Leaf("Hello"))], ["KAYO.outro"], "Bye")
         == Ok([("KAYO.intro", Leaf("Hello")), ("KAYO.outro", Leaf("Bye"))])
  {
    var es: Entries := [("KAYO.intro", Leaf("Hello"))];
    assert "KAYO.outro"[5] != "KAYO.intro"[5];
    SetAfterOne(es[0], "KAYO.outro", Leaf("Bye"));
  }

  lemma KeyPathKayoIntro()
    ensures KeyPath("KAY/O.intro") == ["KAYO.intro"]
  {
    var a, b := "", ".intro";
    assert '/' !in b && 'K' !in b;
    KayoStaysOneSegment(a, b);
    assert a + KayoWithSlash + b == "KAY/O.intro";
    assert a + KayoWithoutSlash + b == "KAYO.intro";
  }

  /** Two rows with the same key: the later value is the one kept. */
  lemma ExampleLaterRowWins()
    ensures Build([Row("a/b", "1"), Row("a/b", "2")]) == Ok([("a", Branch([("b", Leaf("2"))]))])
  {
    BuildAB1();
    KeyPathAB();
    InsertOverwritesAB();
    BuildTwo(Row("a/b", "1"), Row("a/b", "2"), [("a", Branch([("b", Leaf("1"))]))]);
  }

  /** A shorter key assigned after a longer one puts a string where the object was. */
  lemma ExampleLeafReplacesBranch()
    ensures Build([Row("a/b", "1"), Row("a", "2")]) == Ok([("a", Leaf("2"))])
  {
    BuildAB1();
    KeyPathWithoutSlash("a");
    InsertLeafOverBranch();
    BuildTwo(Row("a/b", "1"), Row("a", "2"), [("a", Branch([("b", Leaf("1"))]))]);
  }

  /** A longer key assigned after a shorter one runs into the string and fails. */
  lemma ExampleBranchOverLeafFails()
    ensures Build([Row("a", "2"), Row("a/b", "1")]) == Err(RowFailed(1, ["a"]))
  {
    KeyPathAB();
    KeyPathWithoutSlash("a");
    BuildOne(Row("a", "2"));
    InsertBranchOverLeaf();
    BuildTwo(Row("a", "2"), Row("a/b", "1"), [("a", Leaf("2"))]);
  }

  /** A three-segment key nests three levels deep. */
  lemma ExampleNesting()
    ensures Build([Row("x/y/z", "v")]) == Ok([("x", Branch([("y", Branch([("z", Leaf("v"))]))]))])
  {
    assert Join(["x", "y", "z"], KeySeparator) == "x/y/z";
    OccursNeedsChar("x/y/z", KayoWithSlash, 'K');
    KeyPathOfSegments(["x", "y", "z"]);
    InsertIntoEmpty(["x", "y", "z"], "v");
    BuildOne(Row("x/y/z", "v"));
  }

  /** Top-level keys come out in the order the rows first use them. */
  lemma ExampleKeyOrder()
    ensures Build([Row("b/c", "1"), Row("a/c", "2")])
         == Ok([("b", Branch([("c", Leaf("1"))])), ("a", Branch([("c", Leaf("2"))]))])
  {
    assert Join(["b", "c"], KeySeparator) == "b/c";
    OccursNeedsChar("b/c", KayoWithSlash, 'K');
    KeyPathOfSegments(["b", "c"]);
    assert Join(["a", "c"], KeySeparator) == "a/c";
    OccursNeedsChar("a/c", KayoWithSlash, 'K');
    KeyPathOfSegments(["a", "c"]);
    BuildOne(Row("b/c", "1"));
    InsertIntoEmpty(["b", "c"], "1");
    assert Chain(["c"], "1") == Branch([("c", Leaf("1"))]);
    InsertNewSibling();
    BuildTwo(Row("b/c", "1"), Row("a/c", "2"), [("b", Branch([("c", Leaf("1"))]))]);
  }

  /** Only `/` separates: after normalisation both keys are single segments with a `.`
      inside, so they become two top-level strings, not one `KAYO` object. */
  lemma ExampleKayo()
    ensures Build([Row("KAY/O.intro", "Hello"), Row("KAYO.outro", "Bye")])
         == Ok([("KAYO.intro", Leaf("Hello")), ("KAYO.outro", Leaf("Bye"))])
  {
    KeyPathKayoIntro();
    KeyPathWithoutSlash("KAYO.outro");
    BuildOne(Row("KAY/O.intro", "Hello"));
    InsertIntoEmpty(["KAYO.intro"], "Hello");
    InsertKayoOutro();
    BuildTwo(Row("KAY/O.intro", "Hello"), Row("KAYO.outro", "Bye"), [("KAYO.intro", Leaf("Hello"))]);
  }
}
