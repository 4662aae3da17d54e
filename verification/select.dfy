/** From parsed entries to the prompt: the projection to (tag, count) pairs,
    the stable sort by count, highest first, and generate_prompt_from_tags
    with a threshold th >= 0. */
module TagSelect {
  import opened JsonValue
  import opened PyText
  import opened TagParser

  /** A (tag, frequency) pair once its frequency is known to be a number. */
  datatype Counted = Counted(tag: Json, count: real)

  // ---------------------------------------------------------------------
  // Projection: [(k['tag'], k['frequency']) for k in tags]
  // ---------------------------------------------------------------------

  /** The pairs the sort and the threshold work on. A frequency that is not a
      number makes the sort's comparison, or the threshold's product, raise. */
  function Counts(es: seq<Entry>): (r: Result<seq<Counted>>)
    ensures r.Ok? <==> forall i :: 0 <= i < |es| ==> Number(es[i].freq).Some?
    ensures r.Ok? ==> |r.value| == |es|
    ensures r.Ok? ==> forall i :: 0 <= i < |es| ==> r.value[i] == Counted(es[i].tag, Number(es[i].freq).value)
  {
    if |es| == 0 then Ok([])
    else
      match (Number(es[0].freq), Counts(es[1..]))
      case (Some(n), Ok(rest)) => Ok([Counted(es[0].tag, n)] + rest)
      case _ => TypeError
  }

  // ---------------------------------------------------------------------
  // tags.sort(key=frequency, reverse=True): stable, highest count first
  // ---------------------------------------------------------------------

  predicate NonIncreasing(cs: seq<Counted>) {
    forall i, j :: 0 <= i < j < |cs| ==> cs[i].count >= cs[j].count
  }

  /** Places `x` after every element whose count is at least its own. */
  function InsertDesc(x: Counted, cs: seq<Counted>): (r: seq<Counted>)
    requires NonIncreasing(cs)
    ensures NonIncreasing(r)
    ensures multiset(r) == multiset(cs) + multiset{x}
  {
    if |cs| == 0 then [x]
    else if cs[0].count >= x.count then
      var tail := InsertDesc(x, cs[1..]);
      assert cs == [cs[0]] + cs[1..];
      HeadAbove(cs, x, tail);
      HeadBound(cs[0], tail);
      [cs[0]] + tail
    else
      HeadBound(x, cs);
      [x] + cs
  }

  /** The head of a non-increasing list bounds the rest of it with `x` put in. */
  lemma HeadAbove(cs: seq<Counted>, x: Counted, tail: seq<Counted>)
    requires NonIncreasing(cs) && |cs| > 0 && cs[0].count >= x.count
    requires multiset(tail) == multiset(cs[1..]) + multiset{x}
    ensures forall y :: y in tail ==> cs[0].count >= y.count
  {
    forall y | y in tail ensures cs[0].count >= y.count {
      assert y in multiset(tail);
      if y != x {
        assert y in multiset(cs[1..]);
        var j :| 0 <= j < |cs[1..]| && cs[1..][j] == y;
        assert y == cs[j + 1];
      }
    }
  }

  lemma HeadBound(c: Counted, tail: seq<Counted>)
    requires NonIncreasing(tail)
    requires forall y :: y in tail ==> c.count >= y.count
    ensures NonIncreasing([c] + tail)
  {
    var r := [c] + tail;
    forall i, j | 0 <= i < j < |r| ensures r[i].count >= r[j].count {
      assert r[j] == tail[j - 1] && tail[j - 1] in tail;
      if i > 0 { assert r[i] == tail[i - 1]; }
    }
  }

  function SortDesc(cs: seq<Counted>): (r: seq<Counted>)
    ensures NonIncreasing(r)
    ensures multiset(r) == multiset(cs)
  {
    if |cs| == 0 then []
    else
      var n := |cs| - 1;
      assert cs == cs[..n] + [cs[n]];
      InsertDesc(cs[n], SortDesc(cs[..n]))
  }

  /** The elements of count `c`, in their order. */
  function WithCount(cs: seq<Counted>, c: real): seq<Counted> {
    if |cs| == 0 then []
    else (if cs[0].count == c then [cs[0]] else []) + WithCount(cs[1..], c)
  }

  lemma {:induction false} WithCountAppend(a: seq<Counted>, b: seq<Counted>, c: real)
    ensures WithCount(a + b, c) == WithCount(a, c) + WithCount(b, c)
    decreases |a|
  {
    if |a| == 0 {
      assert a + b == b;
    } else {
      WithCountAppend(a[1..], b, c);
      var h := if a[0].count == c then [a[0]] else [];
      assert (a + b)[0] == a[0] && (a + b)[1..] == a[1..] + b;
      var wa, wb := WithCount(a[1..], c), WithCount(b, c);
      assert WithCount(a + b, c) == h + (wa + wb);
      assert h + (wa + wb) == (h + wa) + wb;
    }
  }

  lemma {:induction false} WithCountNone(cs: seq<Counted>, c: real)
    requires forall i :: 0 <= i < |cs| ==> cs[i].count != c
    ensures WithCount(cs, c) == []
    decreases |cs|
  {
    if |cs| > 0 { WithCountNone(cs[1..], c); }
  }

  lemma {:induction false} InsertDescStable(x: Counted, cs: seq<Counted>, c: real)
    requires NonIncreasing(cs)
    ensures WithCount(InsertDesc(x, cs), c) == WithCount(cs, c) + WithCount([x], c)
    decreases |cs|
  {
    if |cs| == 0 {
    } else if cs[0].count >= x.count {
      InsertDescStable(x, cs[1..], c);
      InsertedBehind(x, cs);
      var h := if cs[0].count == c then [cs[0]] else [];
      var wr, wx := WithCount(cs[1..], c), WithCount([x], c);
      WithCountCons(cs[0], InsertDesc(x, cs[1..]), c);
      WithCountCons(cs[0], cs[1..], c);
      assert h + (wr + wx) == (h + wr) + wx;
    } else {
      InsertedAtFront(x, cs, c);
    }
  }

  lemma WithCountCons(y: Counted, t: seq<Counted>, c: real)
    ensures WithCount([y] + t, c) == (if y.count == c then [y] else []) + WithCount(t, c)
  {
    assert ([y] + t)[0] == y && ([y] + t)[1..] == t;
  }

  lemma WithCountSingle(x: Counted, c: real)
    ensures WithCount([x], c) == if x.count == c then [x] else []
  {
    assert [x][1..] == [];
  }

  lemma InsertedBehind(x: Counted, cs: seq<Counted>)
    requires NonIncreasing(cs) && |cs| > 0 && cs[0].count >= x.count
    ensures NonIncreasing(cs[1..])
    ensures InsertDesc(x, cs) == [cs[0]] + InsertDesc(x, cs[1..])
    ensures cs == [cs[0]] + cs[1..]
  {
  }

  /** `x` goes in front of every element, all of a smaller count. */
  lemma InsertedAtFront(x: Counted, cs: seq<Counted>, c: real)
    requires NonIncreasing(cs) && |cs| > 0 && cs[0].count < x.count
    ensures WithCount(InsertDesc(x, cs), c) == WithCount(cs, c) + WithCount([x], c)
  {
    assert InsertDesc(x, cs) == [x] + cs;
    assert ([x] + cs)[0] == x && ([x] + cs)[1..] == cs;
    WithCountSingle(x, c);
    if x.count == c {
      assert forall i :: 0 <= i < |cs| ==> cs[i].count != c by {
        forall i | 0 <= i < |cs| ensures cs[i].count != c {
          if i > 0 { assert cs[0].count >= cs[i].count; }
        }
      }
      WithCountNone(cs, c);
    }
  }

  /** The sort is stable: the elements of any one count keep their order. */
  lemma {:induction false} SortDescStable(cs: seq<Counted>, c: real)
    ensures WithCount(SortDesc(cs), c) == WithCount(cs, c)
    decreases |cs|
  {
    if |cs| > 0 {
      var n := |cs| - 1;
      SortDescStable(cs[..n], c);
      InsertDescStable(cs[n], SortDesc(cs[..n]), c);
      assert cs == cs[..n] + [cs[n]];
      WithCountAppend(cs[..n], [cs[n]], c);
    }
  }

  // ---------------------------------------------------------------------
  // generate_prompt_from_tags, th >= 0
  // ---------------------------------------------------------------------

  /** `v` is the count of some pair of `cs`. */
  predicate IsCount(cs: seq<Counted>, v: real) {
    exists i :: 0 <= i < |cs| && cs[i].count == v
  }

  /** The first nonzero count, 0 when there is none: the value the loop's
      `if not max_count: max_count = count` settles on. */

  function FirstNonzero(cs: seq<Counted>): (r: real)
    ensures r != 0.0 ==> IsCount(cs, r)
    decreases |cs|
  {
    if |cs| == 0 then 0.0
    else if cs[0].count != 0.0 then cs[0].count
    else FirstNonzero(cs[1..])
  }

  /** FirstNonzero is 0 exactly when every count is, and otherwise the count
      of an entry preceded only by zero counts. */
  lemma {:induction false} FirstNonzeroIsFirst(cs: seq<Counted>)
    ensures FirstNonzero(cs) == 0.0 <==> forall i :: 0 <= i < |cs| ==> cs[i].count == 0.0
    ensures FirstNonzero(cs) != 0.0 ==>
              exists i :: 0 <= i < |cs| && cs[i].count == FirstNonzero(cs) && forall j :: 0 <= j < i ==> cs[j].count == 0.0
    decreases |cs|
  {
    if |cs| > 0 && cs[0].count == 0.0 {
      FirstNonzeroIsFirst(cs[1..]);
      if FirstNonzero(cs) != 0.0 {
        var i :| 0 <= i < |cs[1..]| && cs[1..][i].count == FirstNonzero(cs) && forall j :: 0 <= j < i ==> cs[1..][j].count == 0.0;
        assert cs[i + 1].count == FirstNonzero(cs);
        assert forall j :: 0 <= j < i + 1 ==> cs[j].count == 0.0 by {
          forall j | 0 <= j < i + 1 ensures cs[j].count == 0.0 {
            if j > 0 { assert cs[j] == cs[1..][j - 1]; }
          }
        }
      }
      assert forall i :: 0 < i < |cs| ==> cs[i] == cs[1..][i - 1];
    }
  }

  /** The loop's update of max_count computes FirstNonzero. */
  lemma {:induction false} FirstNonzeroSnoc(cs: seq<Counted>, x: Counted)
    ensures FirstNonzero(cs + [x]) == if FirstNonzero(cs) == 0.0 then x.count else FirstNonzero(cs)
    decreases |cs|
  {
    if |cs| > 0 {
      assert (cs + [x])[1..] == cs[1..] + [x];
      FirstNonzeroSnoc(cs[1..], x);
    }
  }

  /** A prefix that already holds a nonzero count has the same first nonzero count. */
  lemma {:induction false} FirstNonzeroPrefix(cs: seq<Counted>, k: nat)
    requires k <= |cs|
    ensures FirstNonzero(cs[..k]) == 0.0 || FirstNonzero(cs[..k]) == FirstNonzero(cs)
    decreases k
  {
    if k > 0 && cs[0].count == 0.0 {
      assert cs[..k][1..] == cs[1..][..k - 1];
      FirstNonzeroPrefix(cs[1..], k - 1);
    }
  }

  /** `tag in prohibited_tags` */
  predicate IsProhibited(tag: Json, prohibited: seq<string>) {
    tag.JStr? && tag.s in prohibited
  }

  /** The tags the loop appends to `res`, in order: at most one per entry,
      none of them prohibited, all strings when every tag is. */
  function Selected(cs: seq<Counted>, th: real, prohibited: seq<string>): (r: seq<Json>)
    ensures |r| <= |cs|
    ensures forall j :: 0 <= j < |r| ==> !IsProhibited(r[j], prohibited)
    ensures (forall i :: 0 <= i < |cs| ==> cs[i].tag.JStr?) ==> AllText(r)
  {
    if |cs| == 0 then []
    else
      var n := |cs| - 1;
      Selected(cs[..n], th, prohibited)
        + (if !IsProhibited(cs[n].tag, prohibited) && cs[n].count > th * FirstNonzero(cs) then [cs[n].tag] else [])
  }

  /** Entry `i` is appended: its tag is not prohibited and its count exceeds
      th times max_count as it stands when the entry is reached. */
  predicate Picked(cs: seq<Counted>, th: real, prohibited: seq<string>, i: int) {
    && 0 <= i < |cs|
    && !IsProhibited(cs[i].tag, prohibited)
    && cs[i].count > th * FirstNonzero(cs[..i + 1])
  }

  /** Whether an entry is picked depends only on the entries up to it. */
  lemma PickedInPrefix(cs: seq<Counted>, th: real, prohibited: seq<string>, n: int, i: int)
    requires 0 <= i < n <= |cs|
    ensures Picked(cs[..n], th, prohibited, i) <==> Picked(cs, th, prohibited, i)
  {
    assert cs[..n][..i + 1] == cs[..i + 1];
    assert cs[..n][i] == cs[i];
  }

  /** `tag in res` holds exactly for the tags of picked entries. */
  lemma {:induction false} SelectedMembers(cs: seq<Counted>, th: real, prohibited: seq<string>, x: Json)
    ensures x in Selected(cs, th, prohibited) <==> exists i :: Picked(cs, th, prohibited, i) && cs[i].tag == x
    decreases |cs|
  {
    if |cs| > 0 {
      SelectedMembers(cs[..|cs| - 1], th, prohibited, x);
      if x in Selected(cs, th, prohibited) {
        SelectedToPicked(cs, th, prohibited, x);
      }
      if exists i :: Picked(cs, th, prohibited, i) && cs[i].tag == x {
        var i :| Picked(cs, th, prohibited, i) && cs[i].tag == x;
        PickedToSelected(cs, th, prohibited, x, i);
      }
    }
  }

  lemma SelectedToPicked(cs: seq<Counted>, th: real, prohibited: seq<string>, x: Json)
    requires |cs| > 0
    requires var pre := cs[..|cs| - 1];
             x in Selected(pre, th, prohibited) ==> exists i :: Picked(pre, th, prohibited, i) && pre[i].tag == x
    requires x in Selected(cs, th, prohibited)
    ensures exists i :: Picked(cs, th, prohibited, i) && cs[i].tag == x
  {
    var n := |cs| - 1;
    var pre := cs[..n];
    SelectedSnoc(cs, th, prohibited);
    if x in Selected(pre, th, prohibited) {
      var i :| Picked(pre, th, prohibited, i) && pre[i].tag == x;
      PickedInPrefix(cs, th, prohibited, n, i);
      assert Picked(cs, th, prohibited, i) && cs[i].tag == x;
    } else {
      assert Picked(cs, th, prohibited, n) && cs[n].tag == x;
    }
  }

  lemma PickedToSelected(cs: seq<Counted>, th: real, prohibited: seq<string>, x: Json, i: int)
    requires |cs| > 0
    requires var pre := cs[..|cs| - 1];
             (exists k :: Picked(pre, th, prohibited, k) && pre[k].tag == x) ==> x in Selected(pre, th, prohibited)
    requires Picked(cs, th, prohibited, i) && cs[i].tag == x
    ensures x in Selected(cs, th, prohibited)
  {
    var n := |cs| - 1;
    var pre := cs[..n];
    SelectedSnoc(cs, th, prohibited);
    if i < n {
      PickedInPrefix(cs, th, prohibited, n, i);
      assert Picked(pre, th, prohibited, i) && pre[i].tag == x;
    }
  }

  /** One loop iteration: the last entry is appended when it is picked. */
  lemma SelectedSnoc(cs: seq<Counted>, th: real, prohibited: seq<string>)
    requires |cs| > 0
    ensures Selected(cs, th, prohibited)
         == Selected(cs[..|cs| - 1], th, prohibited)
          + (if Picked(cs, th, prohibited, |cs| - 1) then [cs[|cs| - 1].tag] else [])
  {
    var n := |cs| - 1;
    assert cs[..n + 1] == cs;
    assert Picked(cs, th, prohibited, n)
       <==> !IsProhibited(cs[n].tag, prohibited) && cs[n].count > th * FirstNonzero(cs);
  }

  lemma FirstNonzeroNonneg(cs: seq<Counted>)
    requires forall k :: 0 <= k < |cs| ==> cs[k].count >= 0.0
    ensures FirstNonzero(cs) >= 0.0
  {
    FirstNonzeroIsFirst(cs);
    if FirstNonzero(cs) != 0.0 {
      var k :| 0 <= k < |cs| && cs[k].count == FirstNonzero(cs) && forall j :: 0 <= j < k ==> cs[j].count == 0.0;
    }
  }

  /** max_count is still unset after an entry only if that entry counts zero. */
  lemma UnsetAfterZero(cs: seq<Counted>, i: int)
    requires 0 <= i < |cs|
    requires FirstNonzero(cs[..i + 1]) == 0.0
    ensures cs[i].count == 0.0
  {
    var p := cs[..i + 1];
    FirstNonzeroIsFirst(p);
    assert p[i] == cs[i];
  }

  /** Entry `i` clears the bar set by the whole list's first nonzero count,
      and its tag is not prohibited. */
  predicate Eligible(cs: seq<Counted>, th: real, prohibited: seq<string>, i: int) {
    && 0 <= i < |cs|
    && !IsProhibited(cs[i].tag, prohibited)
    && cs[i].count > th * FirstNonzero(cs)
  }

  /** With counts that are not negative, comparing against the running
      max_count and against the whole list's first nonzero count agree. */
  lemma PickedAgainstFirstNonzero(cs: seq<Counted>, th: real, prohibited: seq<string>, i: int)
    requires th >= 0.0
    requires forall k :: 0 <= k < |cs| ==> cs[k].count >= 0.0
    requires 0 <= i < |cs|
    ensures Picked(cs, th, prohibited, i) <==> Eligible(cs, th, prohibited, i)
  {
    var m := FirstNonzero(cs);
    var fp := FirstNonzero(cs[..i + 1]);
    FirstNonzeroPrefix(cs, i + 1);
    if fp == 0.0 {
      FirstNonzeroNonneg(cs);
      Product(th, m);
      UnsetAfterZero(cs, i);
      assert !(cs[i].count > th * fp);
      assert !(cs[i].count > th * m);
    } else {
      assert th * fp == th * m;
    }
  }

  /** With non-negative counts the running max_count can be replaced by the
      first nonzero count of the whole list: a tag is selected exactly when
      one of its entries clears th times that count and it is not prohibited. */
  lemma SelectionRule(cs: seq<Counted>, th: real, prohibited: seq<string>, x: Json)
    requires th >= 0.0
    requires forall i :: 0 <= i < |cs| ==> cs[i].count >= 0.0
    ensures x in Selected(cs, th, prohibited) <==> exists i :: Eligible(cs, th, prohibited, i) && cs[i].tag == x
  {
    if x in Selected(cs, th, prohibited) {
      SelectedMembers(cs, th, prohibited, x);
      var i :| Picked(cs, th, prohibited, i) && cs[i].tag == x;
      PickedAgainstFirstNonzero(cs, th, prohibited, i);
    }
    if exists i :: Eligible(cs, th, prohibited, i) && cs[i].tag == x {
      var i :| Eligible(cs, th, prohibited, i) && cs[i].tag == x;
      PickedAgainstFirstNonzero(cs, th, prohibited, i);
      SelectedMembers(cs, th, prohibited, x);
    }
  }

  lemma Product(th: real, m: real)
    ensures th >= 0.0 && m >= 0.0 ==> th * m >= 0.0
    ensures th >= 1.0 && m >= 0.0 ==> th * m >= m
  {
    if th >= 1.0 && m >= 0.0 {
      assert th * m - m == (th - 1.0) * m;
    }
  }

  /** All of `res` are strings, which set(), sorted() and join() need. */
  predicate AllText(res: seq<Json>) {
    forall i :: 0 <= i < |res| ==> res[i].JStr?
  }

  function Texts(res: seq<Json>): (r: seq<string>)
    ensures forall s :: s in r <==> JStr(s) in res
  {
    if |res| == 0 then []
    else
      assert forall y :: y in res <==> y == res[0] || y in res[1..];
      (if res[0].JStr? then [res[0].s] else []) + Texts(res[1..])
  }

  /** ", ".join(sorted(list(set(res)))): a list that is not all strings makes
      one of the three raise TypeError. */
  function Assemble(res: seq<Json>): (r: Result<string>)
    ensures r.TypeError? <==> exists i :: 0 <= i < |res| && !res[i].JStr?
    ensures res == [] ==> r == Ok("")
    ensures |res| > 0 && (forall i :: 0 <= i < |res| ==> res[i] == res[0]) && res[0].JStr? ==> r == Ok(res[0].s)
  {
    if AllText(res) then
      OneTag(res);
      Ok(JoinWith(", ", SortedSet(Texts(res))))
    else TypeError
  }

  /** A tag kept several times appears once. */
  lemma OneTag(res: seq<Json>)
    ensures (|res| > 0 && (forall i :: 0 <= i < |res| ==> res[i] == res[0]) && res[0].JStr?)
        ==> SortedSet(Texts(res)) == [res[0].s]
  {
    if |res| > 0 && (forall i :: 0 <= i < |res| ==> res[i] == res[0]) && res[0].JStr? {
      var ts := Texts(res);
      assert Elems(SortedSet(ts)) == Elems([res[0].s]) by {
        forall y ensures y in Elems(ts) <==> y == res[0].s {
          assert y in Elems(ts) <==> y in ts;
          assert JStr(y) in res <==> JStr(y) == res[0];
        }
      }
      SortedListingUnique(SortedSet(ts), [res[0].s]);
    }
  }

  /** generate_prompt_from_tags for th >= 0: "" for no tags, and never a
      TypeError when every tag is a string. */
  function Prompt(cs: seq<Counted>, th: real, prohibited: seq<string>): (r: Result<string>)
    ensures |cs| == 0 ==> r == Ok("")
    ensures (forall i :: 0 <= i < |cs| ==> cs[i].tag.JStr?) ==> r.Ok?
  {
    Assemble(Selected(cs, th, prohibited))
  }

  /** The loop of generate_prompt_from_tags (th >= 0 branch). */
  method GeneratePrompt(tags: seq<Counted>, th: real, prohibited: seq<string>) returns (r: Result<string>)
    requires th >= 0.0
    ensures r == Prompt(tags, th, prohibited)
  {
    // Python starts from None; None and 0 are both falsy, and the first
    // entry replaces either before max_count is read.
    var maxCount := 0.0;
    var res: seq<Json> := [];
    for i := 0 to |tags|
      invariant maxCount == FirstNonzero(tags[..i])
      invariant res == Selected(tags[..i], th, prohibited)
    {
      var t := tags[i];
      FirstNonzeroSnoc(tags[..i], t);
      assert tags[..i + 1] == tags[..i] + [t];
      if maxCount == 0.0 {
        maxCount := t.count;
      }
      if IsProhibited(t.tag, prohibited) {
        continue;
      }
      var v := th * maxCount;
      if t.count > v {
        res := res + [t.tag];
      }
    }
    assert tags[..|tags|] == tags;
    r := Assemble(res);
  }

  /** The prompt is the ", "-join of the picked tags in ascending order, each
      once; it fails exactly when a picked tag is not a string. */
  lemma PromptShape(cs: seq<Counted>, th: real, prohibited: seq<string>)
    ensures Prompt(cs, th, prohibited).Ok?
        <==> forall i :: Picked(cs, th, prohibited, i) ==> cs[i].tag.JStr?
    ensures Prompt(cs, th, prohibited).Ok? ==>
              exists ps :: && Prompt(cs, th, prohibited).value == JoinWith(", ", ps)
                           && StrictlySorted(ps)
                           && forall s :: s in ps <==> JStr(s) in Selected(cs, th, prohibited)
  {
    var res := Selected(cs, th, prohibited);
    forall x ensures x in res <==> exists i :: Picked(cs, th, prohibited, i) && cs[i].tag == x {
      SelectedMembers(cs, th, prohibited, x);
    }
    if AllText(res) {
      assert forall x :: x in res ==> x.JStr?;
      var ps := SortedSet(Texts(res));
      assert forall s :: s in ps <==> s in Elems(ps);
      assert forall s :: s in Texts(res) <==> s in Elems(Texts(res));
    } else {
      var k :| 0 <= k < |res| && !res[k].JStr?;
      assert res[k] in res;
    }
  }

  /** An empty selection gives the empty prompt. */
  lemma EmptySelection(cs: seq<Counted>, th: real, prohibited: seq<string>)
    requires forall i :: !Picked(cs, th, prohibited, i)
    ensures Prompt(cs, th, prohibited) == Ok("")
  {
    var res := Selected(cs, th, prohibited);
    if res != [] {
      assert res[0] in res;
      SelectedMembers(cs, th, prohibited, res[0]);
    }
  }

  // ---------------------------------------------------------------------
  // Consequences of sorting first
  // ---------------------------------------------------------------------

  /** After the sort the first entry has the largest count. */
  lemma SortedHeadIsMax(cs: seq<Counted>)
    requires |cs| > 0
    ensures |SortDesc(cs)| == |cs|
    ensures SortDesc(cs)[0] in cs
    ensures forall i :: 0 <= i < |cs| ==> cs[i].count <= SortDesc(cs)[0].count
  {
    var s := SortDesc(cs);
    assert |s| == |multiset(s)| == |multiset(cs)| == |cs|;
    assert s[0] in multiset(s);
    forall i | 0 <= i < |cs| ensures cs[i].count <= s[0].count {
      assert cs[i] in multiset(cs);
      assert cs[i] in s;
    }
  }

  /** When some count is positive, max_count after the sort is the largest count. */
  lemma MaxCountAfterSort(cs: seq<Counted>)
    requires exists i :: 0 <= i < |cs| && cs[i].count > 0.0
    ensures FirstNonzero(SortDesc(cs)) > 0.0
    ensures forall i :: 0 <= i < |cs| ==> cs[i].count <= FirstNonzero(SortDesc(cs))
    ensures exists i :: 0 <= i < |cs| && cs[i].count == FirstNonzero(SortDesc(cs))
  {
    SortedHeadIsMax(cs);
    var s := SortDesc(cs);
    assert s[0].count > 0.0;
    assert FirstNonzero(s) == s[0].count;
  }

  /** Counts after the sort are the counts before it. */
  lemma SortedCounts(cs: seq<Counted>)
    ensures forall y :: y in SortDesc(cs) <==> y in cs
  {
    var s := SortDesc(cs);
    forall y ensures y in s <==> y in cs {
      assert y in s <==> y in multiset(s);
      assert y in cs <==> y in multiset(cs);
    }
  }

  lemma NotPickedAboveOne(s: seq<Counted>, th: real, prohibited: seq<string>, i: int)
    requires th >= 1.0
    requires NonIncreasing(s)
    requires forall k :: 0 <= k < |s| ==> s[k].count >= 0.0
    requires 0 <= i < |s|
    ensures !Picked(s, th, prohibited, i)
  {
    var p := s[..i + 1];
    assert p[0] == s[0];
    if s[0].count > 0.0 {
      assert FirstNonzero(p) == s[0].count;
      Product(th, s[0].count);
    } else {
      assert forall k :: 0 <= k < |p| ==> p[k] == s[k];
      FirstNonzeroIsFirst(p);
    }
  }

  /** With th >= 1 no count exceeds th times the largest, so nothing is
      selected and the prompt is empty. */
  lemma ThresholdAtLeastOne(cs: seq<Counted>, th: real, prohibited: seq<string>)
    requires th >= 1.0
    requires forall i :: 0 <= i < |cs| ==> cs[i].count >= 0.0
    ensures Prompt(SortDesc(cs), th, prohibited) == Ok("")
  {
    var s := SortDesc(cs);
    SortedCounts(cs);
    assert forall k :: 0 <= k < |s| ==> s[k] in cs;
    forall i | 0 <= i < |s| ensures !Picked(s, th, prohibited, i) {
      NotPickedAboveOne(s, th, prohibited, i);
    }
    EmptySelection(s, th, prohibited);
  }

  /** With th = 0 the selection is every tag that is not prohibited and has a
      positive count. */
  lemma ThresholdZero(cs: seq<Counted>, prohibited: seq<string>, x: Json)
    ensures x in Selected(SortDesc(cs), 0.0, prohibited)
        <==> !IsProhibited(x, prohibited) && exists i :: 0 <= i < |cs| && cs[i].tag == x && cs[i].count > 0.0
  {
    var s := SortDesc(cs);
    SortedCounts(cs);
    SelectedMembers(s, 0.0, prohibited, x);
    if !IsProhibited(x, prohibited) && exists i :: 0 <= i < |cs| && cs[i].tag == x && cs[i].count > 0.0 {
      var i :| 0 <= i < |cs| && cs[i].tag == x && cs[i].count > 0.0;
      assert cs[i] in s;
      var j :| 0 <= j < |s| && s[j] == cs[i];
      assert Picked(s, 0.0, prohibited, j);
    }
    if x in Selected(s, 0.0, prohibited) {
      var j :| Picked(s, 0.0, prohibited, j) && s[j].tag == x;
      assert s[j] in cs;
    }
  }

  /** A prohibited tag still sets max_count: with "white background" (10)
      prohibited and th = 0.5, "1girl" (4) is dropped although it is the most
      frequent tag that may appear. */
  lemma ProhibitedTagSetsThreshold()
    ensures Prompt(SortDesc([Counted(JStr("1girl"), 4.0), Counted(JStr("white background"), 10.0)]),
                   0.5, ["white background"]) == Ok("")
  {
    var cs := [Counted(JStr("1girl"), 4.0), Counted(JStr("white background"), 10.0)];
    var s := SortDesc(cs);
    assert cs[..1] == [cs[0]];
    assert SortDesc([cs[0]]) == [cs[0]];
    assert s == [cs[1], cs[0]];
    forall i | 0 <= i < 2 ensures !Picked(s, 0.5, ["white background"], i) {
      assert s[..i + 1][0] == cs[1];
    }
    EmptySelection(s, 0.5, ["white background"]);
  }
}
