/** The Python string operations the pipeline relies on: str.strip(),
    str.split(sep), sep.join(parts), `sub in s`, and the ordering that
    sorted() puts on strings. */
module PyText {

  /** Python's str.isspace() for a single character: the ASCII blanks and
      controls \t to \r and \x1c to \x1f, and the Unicode spaces and
      separators. No visible ASCII character is whitespace. */
  predicate IsSpace(c: char)
    ensures c == ' ' || c == '\t' || c == '\n' || c == '\r' ==> IsSpace(c)
    ensures '!' <= c <= '~' ==> !IsSpace(c)
  {
    || ('\t' <= c <= '\r')
    || ('\U{1c}' <= c <= '\U{1f}')
    || c == ' '
    || c == '\U{85}'
    || c == '\U{a0}'
    || c == '\U{1680}'
    || ('\U{2000}' <= c <= '\U{200a}')
    || c == '\U{2028}'
    || c == '\U{2029}'
    || c == '\U{202f}'
    || c == '\U{205f}'
    || c == '\U{3000}'
  }

  function StripLeft(s: string): (r: string)
    ensures |r| <= |s| && r == s[|s| - |r|..]
    ensures forall k :: 0 <= k < |s| - |r| ==> IsSpace(s[k])
    ensures r == [] || !IsSpace(r[0])
  {
    if |s| > 0 && IsSpace(s[0]) then StripLeft(s[1..]) else s
  }

  function StripRight(s: string): (r: string)
    ensures |r| <= |s| && r == s[..|r|]
    ensures forall k :: |r| <= k < |s| ==> IsSpace(s[k])
    ensures r == [] || !IsSpace(r[|r| - 1])
  {
    if |s| > 0 && IsSpace(s[|s| - 1]) then StripRight(s[..|s| - 1]) else s
  }

  /** `r` is the slice of `s` starting at `i`, with only whitespace around it. */
  predicate TrimmedAt(s: string, r: string, i: int) {
    && 0 <= i <= |s| - |r|
    && s[i..i + |r|] == r
    && (forall k :: 0 <= k < i ==> IsSpace(s[k]))
    && (forall k :: i + |r| <= k < |s| ==> IsSpace(s[k]))
  }

  /** Neither starts nor ends with whitespace. */
  predicate Bare(s: string) {
    s == [] || (!IsSpace(s[0]) && !IsSpace(s[|s| - 1]))
  }

  /** str.strip(): the slice of `s` left once whitespace is dropped from
      both ends; it neither starts nor ends with whitespace. */
  function Strip(s: string): (r: string)
    ensures Bare(r)
    ensures exists i :: TrimmedAt(s, r, i)
  {
    var l := StripLeft(s);
    var r := StripRight(l);
    TrimBothEnds(s, l, r);
    r
  }

  lemma TrimBothEnds(s: string, l: string, r: string)
    requires |l| <= |s| && l == s[|s| - |l|..]
    requires forall k :: 0 <= k < |s| - |l| ==> IsSpace(s[k])
    requires |r| <= |l| && r == l[..|r|]
    requires forall k :: |r| <= k < |l| ==> IsSpace(l[k])
    ensures TrimmedAt(s, r, |s| - |l|)
  {
    var i := |s| - |l|;
    assert s[i..i + |r|] == l[..|r|];
    forall k | i + |r| <= k < |s| ensures IsSpace(s[k]) {
      assert s[k] == l[k - i];
    }
  }

  lemma StripIdempotent(s: string)
    ensures Strip(Strip(s)) == Strip(s)
  {
    var r := Strip(s);
    assert StripLeft(r) == r;
    assert StripRight(r) == r;
  }

  /** A string that neither starts nor ends with whitespace is its own strip. */
  lemma StripUntrimmed(s: string)
    requires Bare(s)
    ensures Strip(s) == s
  {
    assert StripLeft(s) == s;
  }

  /** sep.join(parts): "" for no parts; otherwise it starts with the first
      part, and it holds the separator when there are two parts or more. */
  function JoinWith(sep: string, parts: seq<string>): (r: string)
    ensures |parts| == 0 ==> r == ""
    ensures |parts| > 0 ==> IsPrefix(parts[0], r)
    ensures |parts| >= 2 ==> |parts[0]| + |sep| <= |r| && r[|parts[0]|..|parts[0]| + |sep|] == sep
  {
    if |parts| == 0 then ""
    else if |parts| == 1 then parts[0]
    else parts[0] + sep + JoinWith(sep, parts[1..])
  }

  /** s.split(sep) for a one-character separator: the pieces between
      separators. */
  function Split(s: string, sep: char): (r: seq<string>)
    ensures |r| >= 1
    ensures sep !in s ==> r == [s]
    decreases |s|
  {
    if |s| == 0 then [""]
    else
      var rest := Split(s[1..], sep);
      if s[0] == sep then [""] + rest
      else
        assert sep !in s ==> sep !in s[1..] && rest == [s[1..]] && [s[0]] + s[1..] == s;
        [[s[0]] + rest[0]] + rest[1..]
  }

  /** One piece more than there are separators, and none holding one. */
  lemma {:induction false} SplitPieces(s: string, sep: char)
    ensures |Split(s, sep)| == multiset(s)[sep] + 1
    ensures forall i :: 0 <= i < |Split(s, sep)| ==> sep !in Split(s, sep)[i]
    decreases |s|
  {
    if |s| > 0 {
      SplitPieces(s[1..], sep);
      assert s == [s[0]] + s[1..];
      var rest := Split(s[1..], sep);
      var r := Split(s, sep);
      if s[0] != sep {
        assert r[0] == [s[0]] + rest[0];
        forall i | 1 <= i < |r| ensures sep !in r[i] {
          assert r[i] == rest[i];
        }
      } else {
        forall i | 1 <= i < |r| ensures sep !in r[i] {
          assert r[i] == rest[i - 1];
        }
      }
    }
  }

  lemma JoinCons(sep: string, c: char, ps: seq<string>)
    requires |ps| >= 1
    ensures JoinWith(sep, [[c] + ps[0]] + ps[1..]) == [c] + JoinWith(sep, ps)
  {
    var q := [[c] + ps[0]] + ps[1..];
    if |ps| > 1 {
      var j := JoinWith(sep, ps[1..]);
      assert q[0] == [c] + ps[0] && q[1..] == ps[1..];
      assert JoinWith(sep, q) == (([c] + ps[0]) + sep) + j;
      assert JoinWith(sep, ps) == (ps[0] + sep) + j;
      Associative([c], ps[0], sep);
      Associative([c], ps[0] + sep, j);
    } else {
      assert q == [[c] + ps[0]];
    }
  }

  lemma Associative<T>(x: seq<T>, y: seq<T>, z: seq<T>)
    ensures (x + y) + z == x + (y + z)
  {
  }

  /** Joining the pieces again gives back the string that was split. */
  lemma {:induction false} SplitThenJoin(s: string, sep: char)
    ensures JoinWith([sep], Split(s, sep)) == s
    decreases |s|
  {
    if |s| > 0 {
      var rest := Split(s[1..], sep);
      SplitThenJoin(s[1..], sep);
      assert s == [s[0]] + s[1..];
      if s[0] == sep {
        var q := [""] + rest;
        assert Split(s, sep) == q;
        assert |q| > 1 && q[0] == "" && q[1..] == rest;
        assert JoinWith([sep], q) == "" + [sep] + JoinWith([sep], rest);
      } else {
        assert Split(s, sep) == [[s[0]] + rest[0]] + rest[1..];
        JoinCons([sep], s[0], rest);
      }
    }
  }

  lemma SplitCons(c: char, u: string, sep: char)
    requires c != sep
    ensures Split([c] + u, sep) == [[c] + Split(u, sep)[0]] + Split(u, sep)[1..]
  {
    assert ([c] + u)[1..] == u;
  }

  lemma {:induction false} SplitPrefix(p: string, t: string, sep: char)
    requires sep !in p
    ensures Split(p + t, sep) == [p + Split(t, sep)[0]] + Split(t, sep)[1..]
    decreases |p|
  {
    var q := Split(t, sep);
    if |p| > 0 {
      var u := p[1..] + t;
      assert p[0] != sep && sep !in p[1..] by {
        assert p == [p[0]] + p[1..];
      }
      SplitPrefix(p[1..], t, sep);
      var su := Split(u, sep);
      assert su == [p[1..] + q[0]] + q[1..];
      assert su[0] == p[1..] + q[0] && su[1..] == q[1..];
      assert p == [p[0]] + p[1..];
      Associative([p[0]], p[1..], t);
      SplitCons(p[0], u, sep);
      Associative([p[0]], p[1..], q[0]);
    } else {
      assert p + t == t;
      assert p + q[0] == q[0];
      assert [q[0]] + q[1..] == q;
    }
  }

  /** Splitting a join of separator-free pieces gives back the pieces. */
  lemma {:induction false} JoinThenSplit(parts: seq<string>, sep: char)
    requires |parts| >= 1
    requires forall i :: 0 <= i < |parts| ==> sep !in parts[i]
    ensures Split(JoinWith([sep], parts), sep) == parts
    decreases |parts|
  {
    var p := parts[0];
    if |parts| == 1 {
      SplitPrefix(p, "", sep);
      assert p + "" == p;
    } else {
      var rest := parts[1..];
      JoinThenSplit(rest, sep);
      var t := [sep] + JoinWith([sep], rest);
      assert JoinWith([sep], parts) == p + t;
      SplitPrefix(p, t, sep);
      assert t[1..] == JoinWith([sep], rest);
      assert Split(t, sep) == [""] + rest;
      assert p + "" == p;
      assert [p] + rest == parts;
    }
  }

  predicate IsPrefix(pre: string, s: string) {
    |pre| <= |s| && s[..|pre|] == pre
  }

  /** `sub in s` for strings: "" is in every string, and a one-character
      string is in `s` exactly when its character is. */
  predicate Contains(s: string, sub: string)
    ensures Contains(s, sub) ==> |sub| <= |s|
    ensures sub == [] ==> Contains(s, sub)
    ensures |sub| == 1 ==> (Contains(s, sub) <==> sub[0] in s)
    decreases |s|
  {
    IsPrefix(sub, s) || (|s| > 0 && Contains(s[1..], sub))
  }

  /** `sub` occurs in `s` starting at position `i`. */
  predicate OccursAt(s: string, sub: string, i: int) {
    0 <= i <= |s| - |sub| && s[i..i + |sub|] == sub
  }

  /** `sub in s` holds exactly when `sub` occurs in `s` at some position. */
  lemma {:induction false} ContainsAt(s: string, sub: string)
    ensures Contains(s, sub) <==> exists i :: OccursAt(s, sub, i)
    decreases |s|
  {
    if |s| > 0 {
      ContainsAt(s[1..], sub);
      if Contains(s, sub) {
        if IsPrefix(sub, s) {
          assert OccursAt(s, sub, 0);
        } else {
          var i :| OccursAt(s[1..], sub, i);
          assert s[1..][i..i + |sub|] == s[i + 1..i + 1 + |sub|];
          assert OccursAt(s, sub, i + 1);
        }
      }
      if exists i :: OccursAt(s, sub, i) {
        var i :| OccursAt(s, sub, i);
        if i > 0 {
          assert s[1..][i - 1..i - 1 + |sub|] == s[i..i + |sub|];
          assert OccursAt(s[1..], sub, i - 1);
        }
      }
    } else if sub == [] {
      assert OccursAt(s, sub, 0);
    }
  }

  /** a < b on Python strings: code points compared left to right, a proper
      prefix before the longer string. */
  predicate Less(a: string, b: string)
    ensures Less(a, b) ==> |b| > 0
    ensures IsPrefix(a, b) && |a| < |b| ==> Less(a, b)
    decreases |a|
  {
    if |a| == 0 then |b| > 0
    else |b| > 0 && (a[0] < b[0] || (a[0] == b[0] && Less(a[1..], b[1..])))
  }

  lemma {:induction false} LessIrreflexive(a: string)
    ensures !Less(a, a)
    decreases |a|
  {
    if |a| > 0 { LessIrreflexive(a[1..]); }
  }

  lemma {:induction false} LessTransitive(a: string, b: string, c: string)
    requires Less(a, b) && Less(b, c)
    ensures Less(a, c)
    decreases |a|
  {
    if |a| > 0 && a[0] == b[0] && b[0] == c[0] {
      LessTransitive(a[1..], b[1..], c[1..]);
    }
  }

  lemma {:induction false} LessTotal(a: string, b: string)
    requires a != b
    ensures Less(a, b) != Less(b, a)
    decreases |a|
  {
    if |a| > 0 && |b| > 0 && a[0] == b[0] {
      assert a == [a[0]] + a[1..] && b == [b[0]] + b[1..];
      LessTotal(a[1..], b[1..]);
    }
  }

  /** Ascending in Python's string order, hence without repetitions. */
  predicate StrictlySorted(ps: seq<string>) {
    forall i, j :: 0 <= i < j < |ps| ==> Less(ps[i], ps[j])
  }

  function Elems(ps: seq<string>): set<string> {
    set p | p in ps
  }

  function InsertUnique(x: string, ps: seq<string>): (r: seq<string>)
    requires StrictlySorted(ps)
    ensures StrictlySorted(r)
    ensures Elems(r) == Elems(ps) + {x}
  {
    if |ps| == 0 then [x]
    else if x == ps[0] then
      assert ps[0] in Elems(ps);
      ps
    else if Less(x, ps[0]) then
      InsertFront(x, ps);
      [x] + ps
    else
      var tail := InsertUnique(x, ps[1..]);
      LessTotal(x, ps[0]);
      InsertBehind(x, ps, tail);
      [ps[0]] + tail
  }

  lemma InsertFront(x: string, ps: seq<string>)
    requires StrictlySorted(ps) && |ps| > 0 && Less(x, ps[0])
    ensures StrictlySorted([x] + ps)
    ensures Elems([x] + ps) == Elems(ps) + {x}
  {
    var r := [x] + ps;
    forall i, j | 0 <= i < j < |r| ensures Less(r[i], r[j]) {
      if i == 0 {
        if j > 1 { LessTransitive(x, ps[0], ps[j - 1]); }
      } else {
        assert r[i] == ps[i - 1] && r[j] == ps[j - 1];
      }
    }
  }

  lemma InsertBehind(x: string, ps: seq<string>, tail: seq<string>)
    requires StrictlySorted(ps) && |ps| > 0 && Less(ps[0], x)
    requires StrictlySorted(tail) && Elems(tail) == Elems(ps[1..]) + {x}
    ensures StrictlySorted([ps[0]] + tail)
    ensures Elems([ps[0]] + tail) == Elems(ps) + {x}
  {
    var r := [ps[0]] + tail;
    forall i, j | 0 <= i < j < |r| ensures Less(r[i], r[j]) {
      if i == 0 {
        assert r[j] == tail[j - 1] && tail[j - 1] in Elems(tail);
        if r[j] != x {
          var k :| 0 <= k < |ps[1..]| && ps[1..][k] == r[j];
          assert ps[k + 1] == r[j];
        }
      } else {
        assert r[i] == tail[i - 1] && r[j] == tail[j - 1];
      }
    }
    assert Elems(ps) == {ps[0]} + Elems(ps[1..]) by {
      assert ps == [ps[0]] + ps[1..];
    }
    assert Elems(r) == {ps[0]} + Elems(tail);
  }

  /** sorted(set(xs)): the distinct strings of `xs`, in ascending order. */
  function SortedSet(xs: seq<string>): (r: seq<string>)
    ensures StrictlySorted(r)
    ensures Elems(r) == Elems(xs)
  {
    if |xs| == 0 then []
    else
      var n := |xs| - 1;
      assert xs == xs[..n] + [xs[n]];
      assert Elems(xs) == Elems(xs[..n]) + {xs[n]};
      InsertUnique(xs[n], SortedSet(xs[..n]))
  }

  lemma ElemsEmpty(ps: seq<string>)
    ensures Elems(ps) == {} <==> ps == []
  {
    if ps != [] { assert ps[0] in Elems(ps); }
  }

  /** There is only one ascending listing of a set of strings. */
  lemma {:induction false} SortedListingUnique(a: seq<string>, b: seq<string>)
    requires StrictlySorted(a) && StrictlySorted(b)
    requires Elems(a) == Elems(b)
    ensures a == b
    decreases |a|
  {
    if |a| == 0 {
      ElemsEmpty(a);
      ElemsEmpty(b);
    } else {
      assert a[0] in Elems(b);
      assert |b| > 0;
      assert b[0] in Elems(a);
      if a[0] != b[0] {
        LessTotal(a[0], b[0]);
        assert false;
      }
      assert Elems(a[1..]) == Elems(b[1..]) by {
        LessIrreflexive(a[0]);
        forall y | y in Elems(a[1..]) ensures y in Elems(b[1..]) {
          var k :| 1 <= k < |a| && a[k] == y;
          assert y != a[0];
          assert y in Elems(b);
        }
        forall y | y in Elems(b[1..]) ensures y in Elems(a[1..]) {
          var k :| 1 <= k < |b| && b[k] == y;
          assert y != b[0];
          assert y in Elems(a);
        }
      }
      SortedListingUnique(a[1..], b[1..]);
      assert a == [a[0]] + a[1..] && b == [b[0]] + b[1..];
    }
  }
}
