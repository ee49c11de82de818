/** The three operations of Python's `str` that the exporter relies on, for a non-empty
    pattern: `s.replace(pat, rep)`, `s.split(sep)` and `sep.join(parts)`. */
module Text {

  /** `pat in s`: the pattern starts at some position of `s`. */
  predicate Occurs(s: string, pat: string)
    decreases |s|
  {
    pat <= s || (|s| > 0 && Occurs(s[1..], pat))
  }

  /** `s.replace(pat, rep)`: scan left to right; at each position where `pat` starts,
      emit `rep` and skip the whole match, otherwise copy one character. */
  function Replace(s: string, pat: string, rep: string): (r: string)
    requires |pat| > 0
    ensures !Occurs(s, pat) ==> r == s
    decreases |s|
  {
    if s == [] then []
    else if pat <= s then rep + Replace(s[|pat|..], pat, rep)
    else [s[0]] + Replace(s[1..], pat, rep)
  }

  /** `s.split(sep)`: the pieces between the non-overlapping occurrences of `sep`, found
      left to right. There is always at least one piece. */
  function Split(s: string, sep: string): (r: seq<string>)
    requires |sep| > 0
    ensures |r| >= 1
    decreases |s|
  {
    if s == [] then [[]]
    else if sep <= s then [[]] + Split(s[|sep|..], sep)
    else
      var rest := Split(s[1..], sep);
      [[s[0]] + rest[0]] + rest[1..]
  }

  /** `sep.join(parts)`. */
  function Join(parts: seq<string>, sep: string): (r: string)
    decreases |parts|
  {
    if |parts| == 0 then []
    else if |parts| == 1 then parts[0]
    else parts[0] + sep + Join(parts[1..], sep)
  }

  /** The first piece is a prefix of the string. */
  lemma {:induction false} SplitFirstIsPrefix(s: string, sep: string)
    requires |sep| > 0
    ensures Split(s, sep)[0] <= s
    decreases |s|
  {
    if s != [] && !(sep <= s) {
      SplitFirstIsPrefix(s[1..], sep);
      SplitCopies(s, sep);
      assert s == [s[0]] + s[1..];
    }
  }

  /** No piece of a split contains the separator. */
  lemma {:induction false} SplitPiecesAreFree(s: string, sep: string)
    requires |sep| > 0
    ensures forall i :: 0 <= i < |Split(s, sep)| ==> !Occurs(Split(s, sep)[i], sep)
    decreases |s|
  {
    if s == [] {
    } else if sep <= s {
      SplitPiecesAreFree(s[|sep|..], sep);
    } else {
      var rest := Split(s[1..], sep);
      SplitPiecesAreFree(s[1..], sep);
      SplitFirstIsPrefix(s[1..], sep);
      var head := [s[0]] + rest[0];
      assert head <= s;
      assert !Occurs(rest[0], sep);
      assert !(sep <= head);
      assert head[1..] == rest[0];
      var r := Split(s, sep);
      forall i | 0 <= i < |r| ensures !Occurs(r[i], sep) {
        if i > 0 {
          assert r[i] == rest[i];
        }
      }
    }
  }

  lemma JoinFour(a: string, b: string, c: string, d: string, sep: string)
    ensures Join([a, b, c, d], sep) == a + sep + b + sep + c + sep + d
  {
    JoinCons(c, [d], sep);
    assert [c] + [d] == [c, d];
    JoinCons(b, [c, d], sep);
    assert [b] + [c, d] == [b, c, d];
    JoinCons(a, [b, c, d], sep);
    assert [a] + [b, c, d] == [a, b, c, d];
  }

  lemma JoinThree(a: string, b: string, c: string, sep: string)
    ensures Join([a, b, c], sep) == a + sep + b + sep + c
  {
    JoinCons(b, [c], sep);
    assert [b] + [c] == [b, c];
    JoinCons(a, [b, c], sep);
    assert [a] + [b, c] == [a, b, c];
  }

  lemma JoinConsHead(a: string, x: string, xs: seq<string>, sep: string)
    ensures Join([a + x] + xs, sep) == a + Join([x] + xs, sep)
  {
    if |xs| > 0 {
      assert ([a + x] + xs)[1..] == xs;
      assert ([x] + xs)[1..] == xs;
    }
  }

  lemma JoinCons(x: string, xs: seq<string>, sep: string)
    requires |xs| > 0
    ensures Join([x] + xs, sep) == x + sep + Join(xs, sep)
  {
    assert ([x] + xs)[1..] == xs;
  }

  /** Joining the pieces with the separator gives back the string. */
  lemma {:induction false} JoinOfSplit(s: string, sep: string)
    requires |sep| > 0
    ensures Join(Split(s, sep), sep) == s
    decreases |s|
  {
    if s == [] {
    } else if sep <= s {
      var tail := s[|sep|..];
      calc {
        Join(Split(s, sep), sep);
        { SplitSkips(s, sep); }
        Join([[]] + Split(tail, sep), sep);
        { JoinCons([], Split(tail, sep), sep); }
        [] + sep + Join(Split(tail, sep), sep);
        { JoinOfSplit(tail, sep); }
        [] + sep + tail;
        { assert s == sep + tail; }
        s;
      }
    } else {
      var rest := Split(s[1..], sep);
      calc {
        Join(Split(s, sep), sep);
        { SplitCopies(s, sep); }
        Join([[s[0]] + rest[0]] + rest[1..], sep);
        { JoinConsHead([s[0]], rest[0], rest[1..], sep); }
        [s[0]] + Join([rest[0]] + rest[1..], sep);
        { assert [rest[0]] + rest[1..] == rest; }
        [s[0]] + Join(rest, sep);
        { JoinOfSplit(s[1..], sep); }
        [s[0]] + s[1..];
        s;
      }
    }
  }

  /** A single-character pattern occurs exactly where its character does. */
  lemma {:induction false} OccursChar(s: string, c: char)
    ensures Occurs(s, [c]) <==> c in s
    decreases |s|
  {
    if s != [] {
      OccursChar(s[1..], c);
      assert s == [s[0]] + s[1..];
    }
  }

  /** Splitting on one character after a prefix free of that character only extends the
      first piece. */
  lemma {:induction false} SplitAfterFreePrefix(a: string, t: string, sep: string)
    requires |sep| == 1 && sep[0] !in a
    ensures var rest := Split(t, sep);
      Split(a + t, sep) == [a + rest[0]] + rest[1..]
    decreases |a|
  {
    var rest := Split(t, sep);
    if a == [] {
      assert a + t == t;
      assert a + rest[0] == rest[0];
      assert [rest[0]] + rest[1..] == rest;
    } else {
      var s := a + t;
      assert s[0] == a[0] && s[1..] == a[1..] + t;
      assert !(sep <= s);
      calc {
        Split(s, sep);
        { SplitCopies(s, sep); }
        [[a[0]] + Split(a[1..] + t, sep)[0]] + Split(a[1..] + t, sep)[1..];
        { SplitAfterFreePrefix(a[1..], t, sep); }
        [[a[0]] + (a[1..] + rest[0])] + rest[1..];
        { assert [a[0]] + (a[1..] + rest[0]) == a + rest[0]; }
        [a + rest[0]] + rest[1..];
      }
    }
  }

  /** An occurrence of the separator at the start closes an empty first piece. */
  lemma SplitSkips(s: string, sep: string)
    requires |sep| > 0 && s != [] && sep <= s
    ensures Split(s, sep) == [[]] + Split(s[|sep|..], sep)
  {
  }

  /** A character that does not start the separator joins the first piece. */
  lemma SplitCopies(s: string, sep: string)
    requires |sep| > 0 && s != [] && !(sep <= s)
    ensures Split(s, sep) == [[s[0]] + Split(s[1..], sep)[0]] + Split(s[1..], sep)[1..]
  {
  }

  lemma SplitAfterSeparator(t: string, sep: string)
    requires |sep| > 0
    ensures Split(sep + t, sep) == [[]] + Split(t, sep)
  {
    assert sep <= sep + t;
    assert (sep + t)[|sep|..] == t;
  }

  /** Splitting a join on a one-character separator that no part contains gives back the
      parts. */
  lemma {:induction false} SplitOfJoin(parts: seq<string>, sep: string)
    requires |sep| == 1 && |parts| >= 1
    requires forall i :: 0 <= i < |parts| ==> sep[0] !in parts[i]
    ensures Split(Join(parts, sep), sep) == parts
    decreases |parts|
  {
    var head := parts[0];
    if |parts| == 1 {
      SplitAfterFreePrefix(head, [], sep);
      assert head + [] == head;
    } else {
      var more := parts[1..];
      assert parts == [head] + more;
      var tail := Join(more, sep);
      assert forall i :: 0 <= i < |more| ==> sep[0] !in more[i] by {
        forall i | 0 <= i < |more| ensures sep[0] !in more[i] {
          assert more[i] == parts[i + 1];
        }
      }
      SplitOfJoin(more, sep);
      JoinCons(head, more, sep);
      assert Join(parts, sep) == head + (sep + tail);
      SplitAfterFreePrefix(head, sep + tail, sep);
      SplitAfterSeparator(tail, sep);
      var r := Split(sep + tail, sep);
      assert r == [[]] + more;
      assert r[0] == [] && r[1..] == more;
      assert head + r[0] == head;
    }
  }

  /** `s.replace(pat, rep)` equals `rep.join(s.split(pat))`. */
  lemma {:induction false} ReplaceIsJoinOfSplit(s: string, pat: string, rep: string)
    requires |pat| > 0
    ensures Replace(s, pat, rep) == Join(Split(s, pat), rep)
    decreases |s|
  {
    if s == [] {
    } else if pat <= s {
      var tail := s[|pat|..];
      calc {
        Join(Split(s, pat), rep);
        { SplitSkips(s, pat); }
        Join([[]] + Split(tail, pat), rep);
        { JoinCons([], Split(tail, pat), rep); }
        [] + rep + Join(Split(tail, pat), rep);
        { ReplaceIsJoinOfSplit(tail, pat, rep); }
        [] + rep + Replace(tail, pat, rep);
        Replace(s, pat, rep);
      }
    } else {
      var rest := Split(s[1..], pat);
      calc {
        Join(Split(s, pat), rep);
        { SplitCopies(s, pat); }
        Join([[s[0]] + rest[0]] + rest[1..], rep);
        { JoinConsHead([s[0]], rest[0], rest[1..], rep); }
        [s[0]] + Join([rest[0]] + rest[1..], rep);
        { assert [rest[0]] + rest[1..] == rest; }
        [s[0]] + Join(rest, rep);
        { ReplaceIsJoinOfSplit(s[1..], pat, rep); }
        [s[0]] + Replace(s[1..], pat, rep);
        Replace(s, pat, rep);
      }
    }
  }

  /** Text before the first character of the pattern is copied unchanged. */
  lemma {:induction false} ReplaceAfterFreePrefix(a: string, t: string, pat: string, rep: string)
    requires |pat| > 0 && pat[0] !in a
    ensures Replace(a + t, pat, rep) == a + Replace(t, pat, rep)
    decreases |a|
  {
    if a == [] {
      assert a + t == t;
    } else {
      var s := a + t;
      assert s[0] == a[0] && s[1..] == a[1..] + t;
      assert !(pat <= s);
      calc {
        Replace(s, pat, rep);
        [a[0]] + Replace(a[1..] + t, pat, rep);
        { ReplaceAfterFreePrefix(a[1..], t, pat, rep); }
        [a[0]] + (a[1..] + Replace(t, pat, rep));
        { assert [a[0]] + a[1..] == a; }
        a + Replace(t, pat, rep);
      }
    }
  }

  /** A replacement no longer than the pattern never lengthens the string. */
  lemma {:induction false} ReplaceNeverLengthens(s: string, pat: string, rep: string)
    requires |pat| > 0 && |rep| <= |pat|
    ensures |Replace(s, pat, rep)| <= |s|
    decreases |s|
  {
    if s == [] {
    } else if pat <= s {
      ReplaceNeverLengthens(s[|pat|..], pat, rep);
    } else {
      ReplaceNeverLengthens(s[1..], pat, rep);
    }
  }

  /** A prefix that avoids the first character of the replacement was already a prefix
      of the original string. */
  lemma {:induction false} ReplaceKeepsPrefixBack(t: string, pat: string, rep: string, w: string)
    requires |pat| > 0 && |rep| > 0 && rep[0] !in w
    requires w <= Replace(t, pat, rep)
    ensures w <= t
    decreases |w|
  {
    if w != [] {
      assert t != [];
      assert !(pat <= t);
      var r := Replace(t, pat, rep);
      assert r == [t[0]] + Replace(t[1..], pat, rep);
      assert w[1..] <= Replace(t[1..], pat, rep);
      ReplaceKeepsPrefixBack(t[1..], pat, rep, w[1..]);
      assert w == [w[0]] + w[1..];
    }
  }

  /** A leading character other than the pattern's first does not start an occurrence. */
  lemma OccursAfter(c: char, x: string, pat: string)
    requires |pat| > 0 && c != pat[0]
    ensures Occurs([c] + x, pat) <==> Occurs(x, pat)
  {
    assert ([c] + x)[1..] == x;
  }

  /** The pattern occurs in any string that has it somewhere in the middle. */
  lemma {:induction false} OccursInMiddle(a: string, pat: string, b: string)
    ensures Occurs(a + pat + b, pat)
    decreases |a|
  {
    if a == [] {
      assert a + pat + b == pat + b;
    } else {
      OccursInMiddle(a[1..], pat, b);
      assert (a + pat + b)[1..] == a[1..] + pat + b;
    }
  }

  /** A join around position `i`: the parts up to `i`, the separator, the parts after. */
  lemma {:induction false} JoinSplitAt(parts: seq<string>, sep: string, i: nat)
    requires i + 1 < |parts|
    ensures Join(parts, sep) == Join(parts[..i + 1], sep) + sep + Join(parts[i + 1..], sep)
    decreases i
  {
    if i > 0 {
      var more := parts[1..];
      JoinSplitAt(more, sep, i - 1);
      assert more[..i] == parts[..i + 1][1..];
      assert more[i..] == parts[i + 1..];
    }
  }

  /** A join starts with its first part. */
  lemma JoinStartsWithFirst(parts: seq<string>, sep: string)
    requires |parts| >= 1
    ensures parts[0] <= Join(parts, sep)
  {
  }

  /** A join ends with its last part. */
  lemma JoinEndsWithLast(parts: seq<string>, sep: string)
    requires |parts| >= 1
    ensures var j := Join(parts, sep); var last := parts[|parts| - 1];
      |last| <= |j| && j[|j| - |last|..] == last
  {
    if |parts| >= 2 {
      JoinSnoc(parts, sep);
    }
  }

  /** A lone occurrence of the pattern, with its first character nowhere else, becomes
      the replacement. */
  lemma ReplaceLoneOccurrence(a: string, pat: string, b: string, rep: string)
    requires |pat| > 0 && pat[0] !in a && pat[0] !in b
    ensures Replace(a + pat + b, pat, rep) == a + rep + b
  {
    ReplaceAfterFreePrefix(a, pat + b, pat, rep);
    assert a + pat + b == a + (pat + b);
    assert pat <= pat + b;
    assert (pat + b)[|pat|..] == b;
    ReplaceAfterFreePrefix(b, [], pat, rep);
    assert b + [] == b;
  }

  lemma {:induction false} JoinSnoc(parts: seq<string>, sep: string)
    requires |parts| >= 2
    ensures Join(parts, sep) == Join(parts[..|parts| - 1], sep) + sep + parts[|parts| - 1]
    decreases |parts|
  {
    if |parts| > 2 {
      var more := parts[1..];
      JoinSnoc(more, sep);
      assert more[..|more| - 1] == parts[..|parts| - 1][1..];
      assert more[|more| - 1] == parts[|parts| - 1];
    }
  }

  /** The string is the join of all pieces but the last, the separator, and the last
      piece; or, when there is one piece, that piece. */
  lemma SplitLast(s: string, sep: string)
    requires |sep| > 0
    ensures var r := Split(s, sep);
      && (|r| == 1 ==> r[0] == s)
      && (|r| >= 2 ==> s == Join(r[..|r| - 1], sep) + sep + r[|r| - 1])
  {
    JoinOfSplit(s, sep);
    var r := Split(s, sep);
    if |r| >= 2 {
      JoinSnoc(r, sep);
    }
  }

  /** A pattern cannot occur where one of its characters is missing. */
  lemma {:induction false} OccursNeedsChar(s: string, pat: string, c: char)
    requires c in pat && c !in s
    ensures !Occurs(s, pat)
    decreases |s|
  {
    if s != [] {
      OccursNeedsChar(s[1..], pat, c);
    }
  }

  /** A character in neither the parts nor the separator is not in their join. */
  lemma {:induction false} JoinKeepsAbsence(parts: seq<string>, sep: string, c: char)
    requires c !in sep && forall i :: 0 <= i < |parts| ==> c !in parts[i]
    ensures c !in Join(parts, sep)
    decreases |parts|
  {
    if |parts| > 1 {
      JoinKeepsAbsence(parts[1..], sep, c);
    }
  }
}
