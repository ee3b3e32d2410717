/** The vocabulary selection of `build_vocab`: the frequency table of
    `Counter`, the order of `Counter.most_common`, the cut at
    `int(len(cnt) * threshold)` and the removal of the stray literals. */
module Ranking {
  import opened Common

  /** Number of occurrences of `t` in the corpus tokens `xs`. */
  function Count(xs: seq<string>, t: string): (n: nat)
    ensures n > 0 <==> t in xs
    ensures n <= |xs|
  {
    if xs == [] then 0
    else (if xs[0] == t then 1 else 0) + Count(xs[1..], t)
  }

  /** The keys of `Counter(xs)`, in the order they were first met. */
  function Distinct(xs: seq<string>): (d: seq<string>)
    ensures NoDup(d)
    ensures forall t :: t in d <==> t in xs
  {
    if xs == [] then []
    else
      var d := Distinct(xs[..|xs| - 1]);
      var x := xs[|xs| - 1];
      assert xs == xs[..|xs| - 1] + [x];
      if x in d then d else d + [x]
  }

  /** `a` comes before `b` in `most_common`: a higher count, or an equal count
      and an earlier first occurrence in the corpus (the sort is stable over
      the counter's first-occurrence order). */
  predicate Precedes(xs: seq<string>, a: string, b: string)
  {
    Count(xs, a) > Count(xs, b) || (Count(xs, a) == Count(xs, b) && IndexOf(xs, a) < IndexOf(xs, b))
  }

  predicate RankedBy(xs: seq<string>, s: seq<string>)
  {
    forall i, j :: 0 <= i < j < |s| ==> Precedes(xs, s[i], s[j])
  }

  function Insert(xs: seq<string>, t: string, s: seq<string>): seq<string>
  {
    if s == [] then [t]
    else if Precedes(xs, t, s[0]) then [t] + s
    else [s[0]] + Insert(xs, t, s[1..])
  }

  function SortByRank(xs: seq<string>, ts: seq<string>): seq<string>
  {
    if ts == [] then [] else Insert(xs, ts[0], SortByRank(xs, ts[1..]))
  }

  /** The distinct tokens of the corpus in `most_common` order. */
  function Rank(xs: seq<string>): seq<string>
  {
    SortByRank(xs, Distinct(xs))
  }

  lemma PrecedesTotal(xs: seq<string>, a: string, b: string)
    requires a in xs && b in xs && a != b
    ensures Precedes(xs, a, b) || Precedes(xs, b, a)
  {
    assert IndexOf(xs, a) != IndexOf(xs, b);
  }

  lemma {:induction false} InsertRanked(xs: seq<string>, t: string, s: seq<string>)
    requires t in xs && t !in s
    requires forall u :: u in s ==> u in xs
    requires RankedBy(xs, s)
    ensures RankedBy(xs, Insert(xs, t, s))
    ensures |Insert(xs, t, s)| == |s| + 1
    ensures forall u :: u in Insert(xs, t, s) <==> u == t || u in s
  {
    if s == [] {
    } else if Precedes(xs, t, s[0]) {
      var r := [t] + s;
      forall i, j | 0 <= i < j < |r| ensures Precedes(xs, r[i], r[j]) {
        if i == 0 && j > 1 {
          assert Precedes(xs, s[0], s[j - 1]);
        }
      }
    } else {
      PrecedesTotal(xs, t, s[0]);
      InsertRanked(xs, t, s[1..]);
      var rest := Insert(xs, t, s[1..]);
      var r := [s[0]] + rest;
      forall i, j | 0 <= i < j < |r| ensures Precedes(xs, r[i], r[j]) {
        if i == 0 {
          assert r[j] in rest;
          if r[j] != t {
            var k :| 0 <= k < |s[1..]| && s[1..][k] == r[j];
            assert Precedes(xs, s[0], s[k + 1]);
          }
        } else {
          assert r[i] == rest[i - 1] && r[j] == rest[j - 1];
        }
      }
      assert forall u :: u in s <==> u == s[0] || u in s[1..];
    }
  }

  lemma {:induction false} SortByRankRanked(xs: seq<string>, ts: seq<string>)
    requires NoDup(ts)
    requires forall u :: u in ts ==> u in xs
    ensures RankedBy(xs, SortByRank(xs, ts))
    ensures |SortByRank(xs, ts)| == |ts|
    ensures forall u :: u in SortByRank(xs, ts) <==> u in ts
  {
    if ts != [] {
      assert forall u :: u in ts <==> u == ts[0] || u in ts[1..];
      SortByRankRanked(xs, ts[1..]);
      InsertRanked(xs, ts[0], SortByRank(xs, ts[1..]));
    }
  }

  lemma RankedNoDup(xs: seq<string>, s: seq<string>)
    requires RankedBy(xs, s)
    ensures NoDup(s)
  {
  }

  /** `most_common` lists every distinct corpus token once, by non-increasing
      count, and tokens of equal count in the order they first occur. */
  lemma RankIsMostCommonOrder(xs: seq<string>)
    ensures NoDup(Rank(xs))
    ensures |Rank(xs)| == |Distinct(xs)|
    ensures forall t :: t in Rank(xs) <==> t in xs
    ensures forall i, j :: 0 <= i < j < |Rank(xs)| ==> Count(xs, Rank(xs)[i]) >= Count(xs, Rank(xs)[j])
    ensures forall i, j :: 0 <= i < j < |Rank(xs)| && Count(xs, Rank(xs)[i]) == Count(xs, Rank(xs)[j]) ==>
              IndexOf(xs, Rank(xs)[i]) < IndexOf(xs, Rank(xs)[j])
  {
    SortByRankRanked(xs, Distinct(xs));
    RankedNoDup(xs, Rank(xs));
  }

  lemma SameMembersEmpty(s: seq<string>, r: seq<string>)
    requires forall t :: t in s <==> t in r
    ensures s == [] <==> r == []
  {
    if s != [] {
      assert s[0] in r;
    }
    if r != [] {
      assert r[0] in s;
    }
  }

  /** The order is determined: any listing of the same tokens ranked the same way is `Rank(xs)`. */
  lemma {:induction false} RankedUnique(xs: seq<string>, s: seq<string>, r: seq<string>)
    requires RankedBy(xs, s) && RankedBy(xs, r)
    requires forall t :: t in s <==> t in r
    ensures s == r
    decreases |s|
  {
    SameMembersEmpty(s, r);
    if s != [] {
      assert s[0] in r;
      assert r[0] in s;
      var k :| 0 <= k < |r| && r[k] == s[0];
      var m :| 0 <= m < |s| && s[m] == r[0];
      assert k > 0 ==> Precedes(xs, r[0], s[0]);
      assert m > 0 ==> Precedes(xs, s[0], r[0]);
      assert r[0] == s[0];
      RankedNoDup(xs, s);
      RankedNoDup(xs, r);
      forall t ensures t in s[1..] <==> t in r[1..] {
        assert t in s <==> t == s[0] || t in s[1..];
        assert t in r <==> t == r[0] || t in r[1..];
        assert s[0] !in s[1..];
        assert r[0] !in r[1..];
      }
      RankedUnique(xs, s[1..], r[1..]);
    }
  }

  lemma RankCharacterised(xs: seq<string>, s: seq<string>)
    requires RankedBy(xs, s)
    requires forall t :: t in s <==> t in xs
    ensures s == Rank(xs)
  {
    SortByRankRanked(xs, Distinct(xs));
    RankedUnique(xs, s, Rank(xs));
  }

  /** `int(distinct * num / den)`: Python's `int()` truncates toward zero. */
  function SelectionSize(distinct: nat, num: int, den: nat): (k: int)
    requires den > 0
  {
    var p := distinct * num;
    if p >= 0 then p / den else -((-p) / den)
  }

  /** A threshold in [0, 1] keeps between none and all of the distinct tokens. */
  lemma SelectionSizeBounds(distinct: nat, num: int, den: nat)
    requires den > 0 && 0 <= num <= den
    ensures 0 <= SelectionSize(distinct, num, den) <= distinct
  {
    var p := distinct * num;
    assert 0 <= p <= distinct * den;
    var q := p / den;
    assert q * den <= p;
    assert q * den <= distinct * den;
  }

  lemma MulRight(a: int, b: int, c: int)
    requires a <= b && c >= 0
    ensures a * c <= b * c
  {
  }

  lemma MulCancel(a: int, b: int, c: int)
    requires c > 0 && a * c <= b * c
    ensures a <= b
  {
    if a > b {
      MulRight(b + 1, a, c);
    }
  }

  /** A larger threshold never selects fewer tokens: `num1 / den1 <= num2 / den2`
      gives `int(d * num1 / den1) <= int(d * num2 / den2)`. */
  lemma SelectionSizeMonotone(distinct: nat, num1: int, den1: nat, num2: int, den2: nat)
    requires den1 > 0 && den2 > 0 && 0 <= num1 && num1 * den2 <= num2 * den1
    ensures SelectionSize(distinct, num1, den1) <= SelectionSize(distinct, num2, den2)
  {
    MulCancel(num1 * 0, num2, den1);
    var p1, p2 := distinct * num1, distinct * num2;
    assert p1 >= 0 && p2 >= 0;
    var q1 := p1 / den1;
    assert q1 * den1 <= p1;
    MulRight(q1 * den1, p1, den2);
    MulRight(num1 * den2, num2 * den1, distinct);
    assert (q1 * den2) * den1 <= p2 * den1 by {
      assert (q1 * den2) * den1 == (q1 * den1) * den2;
      assert p1 * den2 == (num1 * den2) * distinct;
      assert p2 * den1 == (num2 * den1) * distinct;
    }
    MulCancel(q1 * den2, p2, den1);
    var q2 := p2 / den2;
    assert p2 < (q2 + 1) * den2;
    if q1 > q2 {
      MulRight(q2 + 1, q1, den2);
    }
  }

  /** How many entries `heapq.nlargest(n, ...)` returns from `m` candidates. */
  function Clamp(n: int, m: nat): nat
  {
    if n <= 0 then 0 else if n < m then n else m
  }

  /** The first `n` tokens of the ranking. */
  function Top(xs: seq<string>, n: int): seq<string>
  {
    Rank(xs)[..Clamp(n, |Rank(xs)|)]
  }

  /** `Counter(xs).most_common(n)`: the top tokens paired with their counts. */
  function MostCommon(xs: seq<string>, n: int): (r: seq<(string, nat)>)
    ensures |r| == |Top(xs, n)|
    ensures forall i :: 0 <= i < |r| ==> r[i].0 == Top(xs, n)[i] && r[i].1 == Count(xs, r[i].0)
  {
    var top := Top(xs, n);
    seq(|top|, i requires 0 <= i < |top| => (top[i], Count(xs, top[i])))
  }

  /** The top `n` tokens: as many as asked for (at most all distinct ones),
      ranked, and each ahead of every corpus token left out. */
  lemma TopRanked(xs: seq<string>, n: int)
    ensures |Top(xs, n)| == Clamp(n, |Distinct(xs)|)
    ensures forall t :: t in Top(xs, n) ==> t in xs
    ensures RankedBy(xs, Top(xs, n))
    ensures forall t, i :: t in xs && t !in Top(xs, n) && 0 <= i < |Top(xs, n)| ==> Precedes(xs, Top(xs, n)[i], t)
  {
    var rank := Rank(xs);
    SortByRankRanked(xs, Distinct(xs));
    var k := Clamp(n, |rank|);
    var top := rank[..k];
    assert top == Top(xs, n);
    forall t, i | t in xs && t !in top && 0 <= i < |top| ensures Precedes(xs, top[i], t) {
      var m :| 0 <= m < |rank| && rank[m] == t;
      assert forall j :: 0 <= j < k ==> rank[j] == top[j];
      assert Precedes(xs, rank[i], rank[m]);
    }
  }

  /** What `most_common(n)` promises: `n` entries (clamped to the number of
      distinct tokens), each a distinct corpus token with its count, counts
      never increasing, ties in first-occurrence order, and every token left
      out ranking after every listed one. */
  lemma MostCommonSpec(xs: seq<string>, n: int)
    ensures var r := MostCommon(xs, n);
            && |r| == Clamp(n, |Distinct(xs)|)
            && (forall i :: 0 <= i < |r| ==> r[i].0 in xs && r[i].1 == Count(xs, r[i].0))
            && (forall i, j :: 0 <= i < j < |r| ==> r[i].0 != r[j].0 && r[i].1 >= r[j].1)
            && (forall i, j :: 0 <= i < j < |r| && r[i].1 == r[j].1 ==> IndexOf(xs, r[i].0) < IndexOf(xs, r[j].0))
            && (forall t, i :: t in xs && 0 <= i < |r| && (forall j :: 0 <= j < |r| ==> r[j].0 != t) ==>
                  Count(xs, t) <= r[i].1 && (Count(xs, t) == r[i].1 ==> IndexOf(xs, r[i].0) < IndexOf(xs, t)))
  {
    var r := MostCommon(xs, n);
    var top := Top(xs, n);
    TopRanked(xs, n);
    assert forall i :: 0 <= i < |r| ==> r[i].0 == top[i];
    forall t, i | t in xs && 0 <= i < |r| && (forall j :: 0 <= j < |r| ==> r[j].0 != t)
      ensures Count(xs, t) <= r[i].1 && (Count(xs, t) == r[i].1 ==> IndexOf(xs, r[i].0) < IndexOf(xs, t))
    {
      assert t !in top;
      assert Precedes(xs, top[i], t);
    }
  }

  /** `list.remove(x)`: the list without its first `x`; `None` is the
      ValueError raised when there is no `x`. */
  function Remove(s: seq<string>, x: string): (r: Option<seq<string>>)
    ensures r.Some? <==> x in s
    ensures r.Some? ==> r.value == s[..IndexOf(s, x)] + s[IndexOf(s, x) + 1..]
  {
    if s == [] then None
    else if s[0] == x then Some(s[1..])
    else match Remove(s[1..], x)
      case None => None
      case Some(rest) =>
        ConsSplit(s, IndexOf(s[1..], x));
        Some([s[0]] + rest)
  }

  /** Removing position `j` of the tail is removing position `j + 1` of the list. */
  lemma ConsSplit(s: seq<string>, j: nat)
    requires j + 1 < |s|
    ensures [s[0]] + (s[1..][..j] + s[1..][j + 1..]) == s[..j + 1] + s[j + 2..]
  {
  }

  /** The elements of `s` outside `drop`, in order. */
  function Without(s: seq<string>, drop: set<string>): seq<string>
  {
    if s == [] then []
    else (if s[0] in drop then [] else [s[0]]) + Without(s[1..], drop)
  }

  lemma {:induction false} WithoutMembers(s: seq<string>, drop: set<string>)
    ensures forall t :: t in Without(s, drop) <==> t in s && t !in drop
    ensures NoDup(s) ==> NoDup(Without(s, drop))
  {
    if s != [] {
      WithoutMembers(s[1..], drop);
      assert forall t :: t in s <==> t == s[0] || t in s[1..];
      if NoDup(s) {
        assert NoDup(s[1..]);
        assert s[0] !in s[1..];
      }
    }
  }

  lemma {:induction false} WithoutAppend(a: seq<string>, b: seq<string>, drop: set<string>)
    ensures Without(a + b, drop) == Without(a, drop) + Without(b, drop)
  {
    if a != [] {
      var head := if a[0] in drop then [] else [a[0]];
      assert (a + b)[0] == a[0];
      assert (a + b)[1..] == a[1..] + b;
      WithoutAppend(a[1..], b, drop);
      calc {
        Without(a + b, drop);
        head + Without(a[1..] + b, drop);
        head + (Without(a[1..], drop) + Without(b, drop));
        (head + Without(a[1..], drop)) + Without(b, drop);
        Without(a, drop) + Without(b, drop);
      }
    } else {
      assert a + b == b;
    }
  }

  lemma {:induction false} WithoutNothing(s: seq<string>, drop: set<string>)
    requires forall t :: t in s ==> t !in drop
    ensures Without(s, drop) == s
  {
    if s != [] {
      WithoutNothing(s[1..], drop);
    }
  }

  /** Dropping the only `x` between two `x`-free runs joins the runs. */
  lemma WithoutOnly(pre: seq<string>, x: string, post: seq<string>)
    requires x !in pre && x !in post
    ensures Without(pre + ([x] + post), {x}) == pre + post
  {
    WithoutNothing(pre, {x});
    WithoutNothing(post, {x});
    WithoutAppend(pre, [x] + post, {x});
    WithoutAppend([x], post, {x});
    assert Without([x], {x}) == [] by {
      assert [x][1..] == [];
    }
    calc {
      Without(pre + ([x] + post), {x});
      Without(pre, {x}) + Without([x] + post, {x});
      pre + (Without([x], {x}) + Without(post, {x}));
      pre + ([] + post);
      { assert [] + post == post; }
      pre + post;
    }
  }

  /** The list splits around a position. */
  lemma SplitAround(s: seq<string>, i: nat)
    requires i < |s|
    ensures s == s[..i] + ([s[i]] + s[i + 1..])
  {
  }

  /** Dropping the element at a position that holds its only copy removes that position. */
  lemma WithoutAt(s: seq<string>, i: nat)
    requires i < |s| && s[i] !in s[..i] && s[i] !in s[i + 1..]
    ensures Without(s, {s[i]}) == s[..i] + s[i + 1..]
  {
    var pre, post := s[..i], s[i + 1..];
    calc {
      Without(s, {s[i]});
      { SplitAround(s, i); }
      Without(pre + ([s[i]] + post), {s[i]});
      { WithoutOnly(pre, s[i], post); }
      pre + post;
    }
  }

  /** Nothing before the first `x` is `x`; with no duplicates, nothing after it either. */
  lemma AroundFirst(s: seq<string>, x: string)
    requires NoDup(s) && x in s
    ensures x !in s[..IndexOf(s, x)]
    ensures x !in s[IndexOf(s, x) + 1..]
  {
    var i := IndexOf(s, x);
    var pre, post := s[..i], s[i + 1..];
    forall j | 0 <= j < |pre| ensures pre[j] != x {
      assert pre[j] == s[j];
    }
    forall j | 0 <= j < |post| ensures post[j] != x {
      assert post[j] == s[i + 1 + j];
    }
  }

  lemma RemoveIsWithout(s: seq<string>, x: string)
    requires NoDup(s) && x in s
    ensures Remove(s, x) == Some(Without(s, {x}))
  {
    AroundFirst(s, x);
    WithoutAt(s, IndexOf(s, x));
  }

  /** The literals `build_vocab` removes from the selected words. */
  const StrayLiterals: set<string> := {"unk", "<", ">"}

  /** `most_common_words.remove('unk'); .remove('<'); .remove('>')`. */
  function DropStray(words: seq<string>): Result<seq<string>>
  {
    match Remove(words, "unk")
    case None => Failure(MissingLiteral("unk"))
    case Some(w1) =>
      match Remove(w1, "<")
      case None => Failure(MissingLiteral("<"))
      case Some(w2) =>
        match Remove(w2, ">")
        case None => Failure(MissingLiteral(">"))
        case Some(w3) => Success(w3)
  }

  /** The words `build_vocab` puts after the special tokens. */
  function SelectWords(xs: seq<string>, n: int): Result<seq<string>>
  {
    DropStray(Top(xs, n))
  }

  lemma TopFacts(xs: seq<string>, n: int)
    ensures NoDup(Top(xs, n))
    ensures forall t :: t in Top(xs, n) ==> t in xs
  {
    RankIsMostCommonOrder(xs);
  }

  lemma RemoveStep(s: seq<string>, x: string)
    requires NoDup(s)
    ensures x in s ==> Remove(s, x).Some? && |Remove(s, x).value| == |s| - 1
    ensures x in s ==> Remove(s, x).value == Without(s, {x}) && NoDup(Remove(s, x).value)
    ensures x in s ==> forall t :: t in Remove(s, x).value <==> t in s && t != x
  {
    if x in s {
      RemoveIsWithout(s, x);
      WithoutMembers(s, {x});
    }
  }

  lemma {:induction false} WithoutStrayInTurn(s: seq<string>)
    ensures Without(Without(Without(s, {"unk"}), {"<"}), {">"}) == Without(s, StrayLiterals)
  {
    if s != [] {
      WithoutStrayInTurn(s[1..]);
      var h1 := if s[0] in {"unk"} then [] else [s[0]];
      WithoutAppend(h1, Without(s[1..], {"unk"}), {"<"});
      var h2 := if s[0] in StrayLiterals - {">"} then [] else [s[0]];
      WithoutAppend(h2, Without(Without(s[1..], {"unk"}), {"<"}), {">"});
    }
  }

  lemma DropStrayKeeps(top: seq<string>)
    requires NoDup(top)
    requires "unk" in top && "<" in top && ">" in top
    ensures DropStray(top).Success?
    ensures DropStray(top).value == Without(top, StrayLiterals)
    ensures |DropStray(top).value| == |top| - 3
  {
    RemoveStep(top, "unk");
    var w1 := Remove(top, "unk").value;
    RemoveStep(w1, "<");
    assert "<" in w1;
    var w2 := Remove(w1, "<").value;
    RemoveStep(w2, ">");
    assert ">" in w2;
    WithoutStrayInTurn(top);
  }

  lemma DropStrayMissing(top: seq<string>)
    requires NoDup(top)
    requires "unk" !in top || "<" !in top || ">" !in top
    ensures DropStray(top).Failure?
    ensures DropStray(top).error ==
              (if "unk" !in top then MissingLiteral("unk")
               else if "<" !in top then MissingLiteral("<")
               else MissingLiteral(">"))
  {
    RemoveStep(top, "unk");
    if "unk" in top {
      var w1 := Remove(top, "unk").value;
      RemoveStep(w1, "<");
      if "<" in top {
        assert "<" in w1;
        var w2 := Remove(w1, "<").value;
        RemoveStep(w2, ">");
        assert ">" !in w2;
      } else {
        assert "<" !in w1;
      }
    }
  }

  /** The three removals on a list without duplicates. */
  lemma DropStraySpec(top: seq<string>)
    requires NoDup(top)
    ensures DropStray(top).Success? <==> forall l :: l in StrayLiterals ==> l in top
    ensures DropStray(top).Failure? ==>
              DropStray(top).error ==
                (if "unk" !in top then MissingLiteral("unk")
                 else if "<" !in top then MissingLiteral("<")
                 else MissingLiteral(">"))
    ensures DropStray(top).Success? ==>
              DropStray(top).value == Without(top, StrayLiterals) &&
              |DropStray(top).value| == |top| - 3
  {
    if "unk" in top && "<" in top && ">" in top {
      DropStrayKeeps(top);
    } else {
      DropStrayMissing(top);
    }
  }

  /** Selection succeeds exactly when the top `n` words hold all three stray
      literals (otherwise the first missing one is reported), and then keeps
      the other top words in ranking order: `n - 3` of them. */
  lemma SelectWordsSpec(xs: seq<string>, n: int)
    ensures SelectWords(xs, n).Success? <==> forall l :: l in StrayLiterals ==> l in Top(xs, n)
    ensures SelectWords(xs, n).Failure? ==>
              SelectWords(xs, n).error ==
                (if "unk" !in Top(xs, n) then MissingLiteral("unk")
                 else if "<" !in Top(xs, n) then MissingLiteral("<")
                 else MissingLiteral(">"))
    ensures SelectWords(xs, n).Success? ==>
              SelectWords(xs, n).value == Without(Top(xs, n), StrayLiterals) &&
              |SelectWords(xs, n).value| == |Top(xs, n)| - 3
  {
    TopFacts(xs, n);
    DropStraySpec(Top(xs, n));
  }

  lemma WithoutPrefix(t1: seq<string>, t2: seq<string>, drop: set<string>)
    requires |t1| <= |t2| && t1 == t2[..|t1|]
    ensures |Without(t1, drop)| <= |Without(t2, drop)|
    ensures Without(t1, drop) == Without(t2, drop)[..|Without(t1, drop)|]
  {
    assert t2 == t1 + t2[|t1|..];
    WithoutAppend(t1, t2[|t1|..], drop);
  }

  /** A shorter prefix of a list is a prefix of a longer one. */
  lemma PrefixOfPrefix(r: seq<string>, a: nat, b: nat)
    requires a <= b <= |r|
    ensures r[..a] == r[..b][..a]
  {
  }

  /** Raising the selection size only appends: the smaller selection is a prefix
      of the larger, both before and after the stray literals are removed. */
  lemma SelectionMonotone(xs: seq<string>, n1: int, n2: int)
    requires n1 <= n2
    ensures |Top(xs, n1)| <= |Top(xs, n2)| && Top(xs, n1) == Top(xs, n2)[..|Top(xs, n1)|]
    ensures SelectWords(xs, n1).Success? ==> SelectWords(xs, n2).Success?
    ensures SelectWords(xs, n1).Success? ==>
              |SelectWords(xs, n1).value| <= |SelectWords(xs, n2).value| &&
              SelectWords(xs, n1).value == SelectWords(xs, n2).value[..|SelectWords(xs, n1).value|]
  {
    var r := Rank(xs);
    PrefixOfPrefix(r, Clamp(n1, |r|), Clamp(n2, |r|));
    var t1, t2 := Top(xs, n1), Top(xs, n2);
    if SelectWords(xs, n1).Success? {
      assert SelectWords(xs, n2).Success? by {
        SelectWordsSpec(xs, n1);
        SelectWordsSpec(xs, n2);
        assert forall l :: l in t1 ==> l in t2;
      }
      assert SelectWords(xs, n1).value == Without(t1, StrayLiterals) by {
        SelectWordsSpec(xs, n1);
      }
      assert SelectWords(xs, n2).value == Without(t2, StrayLiterals) by {
        SelectWordsSpec(xs, n2);
      }
      WithoutPrefix(t1, t2, StrayLiterals);
    }
  }

  /** A larger threshold `num2 / den2 >= num1 / den1` only appends to the
      selection: the ranked words kept before are a prefix of those kept
      now, a selection that succeeded still succeeds, and its words after
      the stray literals are removed are a prefix too. */
  lemma ThresholdMonotone(xs: seq<string>, num1: int, den1: nat, num2: int, den2: nat)
    requires den1 > 0 && den2 > 0 && 0 <= num1 && num1 * den2 <= num2 * den1
    ensures var n1 := SelectionSize(|Distinct(xs)|, num1, den1);
            var n2 := SelectionSize(|Distinct(xs)|, num2, den2);
            && n1 <= n2
            && |Top(xs, n1)| <= |Top(xs, n2)| && Top(xs, n1) == Top(xs, n2)[..|Top(xs, n1)|]
            && (SelectWords(xs, n1).Success? ==> SelectWords(xs, n2).Success?)
            && (SelectWords(xs, n1).Success? ==>
                  |SelectWords(xs, n1).value| <= |SelectWords(xs, n2).value| &&
                  SelectWords(xs, n1).value == SelectWords(xs, n2).value[..|SelectWords(xs, n1).value|])
  {
    var n1 := SelectionSize(|Distinct(xs)|, num1, den1);
    var n2 := SelectionSize(|Distinct(xs)|, num2, den2);
    SelectionSizeMonotone(|Distinct(xs)|, num1, den1, num2, den2);
    SelectionMonotone(xs, n1, n2);
  }
}
