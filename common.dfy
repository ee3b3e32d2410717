/** Shared vocabulary of the tokenizer model: optional values, the exceptions
    the tokenizer raises, and a few sequence helpers. */
module Common {

  datatype Option<+T> = None | Some(value: T)

  /** The exceptions the tokenizer can raise, one constructor per cause. */
  datatype Error =
    | Unready                          // vocab or rev_vocab is still None
    | UnknownToken(token: string)      // KeyError: encode met a token outside the vocabulary
    | IndexOutOfRange(index: int)      // IndexError: decode met an index outside the vocabulary
    | MissingLiteral(literal: string)  // ValueError: list.remove did not find a stray literal
    | FileNotFound(path: string)       // open() of a vocabulary file that does not exist
    | BadIndexColumn(field: string)    // ValueError: int() of a vocabulary line's index column
    | MissingTokenColumn(line: string) // IndexError: a vocabulary line without a tab

  datatype Result<+T> = Success(value: T) | Failure(error: Error)

  datatype Outcome = Pass | Fail(error: Error)

  /** Position of the first `x` in `s`, or `|s|` when there is none. */
  function IndexOf<T(==)>(s: seq<T>, x: T): (i: nat)
    ensures i <= |s|
    ensures i < |s| <==> x in s
    ensures i < |s| ==> s[i] == x
    ensures forall j :: 0 <= j < i ==> s[j] != x
  {
    if s == [] then 0
    else if s[0] == x then 0
    else 1 + IndexOf(s[1..], x)
  }

  /** Position of the first element of `s` that `p` holds of, or `|s|`. */
  function FirstWhere<T>(s: seq<T>, p: T -> bool): (i: nat)
    ensures i <= |s|
    ensures i < |s| ==> p(s[i])
    ensures forall j :: 0 <= j < i ==> !p(s[j])
  {
    if s == [] then 0
    else if p(s[0]) then 0
    else 1 + FirstWhere(s[1..], p)
  }

  predicate NoDup<T(==)>(s: seq<T>)
  {
    forall i, j :: 0 <= i < j < |s| ==> s[i] != s[j]
  }

  lemma NoDupAppend<T>(a: seq<T>, b: seq<T>)
    ensures NoDup(a + b) <==> NoDup(a) && NoDup(b) && forall x :: x in b ==> x !in a
  {
    if NoDup(a) && NoDup(b) && forall x :: x in b ==> x !in a {
      forall i, j | 0 <= i < j < |a + b| ensures (a + b)[i] != (a + b)[j] {
        if i < |a| && j >= |a| {
          assert (a + b)[j] in b;
        }
      }
    }
    if NoDup(a + b) {
      forall x | x in b ensures x !in a {
        var j :| 0 <= j < |b| && b[j] == x;
        assert (a + b)[|a| + j] == x;
        forall i | 0 <= i < |a| ensures a[i] != x {
          assert (a + b)[i] == a[i];
        }
      }
      assert a == (a + b)[..|a|];
      assert b == (a + b)[|a|..];
    }
  }

  /** A list comprehension whose items may raise: every value, or the error
      of the first item that raises. */
  function Collect<T>(rs: seq<Result<T>>): (r: Result<seq<T>>)
    ensures r.Success? <==> forall j :: 0 <= j < |rs| ==> rs[j].Success?
    ensures r.Success? ==> |r.value| == |rs| && forall j :: 0 <= j < |rs| ==> rs[j] == Success(r.value[j])
    ensures r.Failure? ==>
              exists j :: 0 <= j < |rs| && rs[j] == Failure(r.error) && forall i :: 0 <= i < j ==> rs[i].Success?
  {
    if rs == [] then Success([])
    else match rs[0]
      case Failure(e) => Failure(e)
      case Success(v) =>
        match Collect(rs[1..])
        case Failure(e) => Failure(e)
        case Success(vs) => Success([v] + vs)
  }

  /** The values of the present options, in order. */
  function Somes<T>(xs: seq<Option<T>>): seq<T>
  {
    if xs == [] then []
    else (if xs[0].Some? then [xs[0].value] else []) + Somes(xs[1..])
  }

  lemma {:induction false} SomesMembers<T>(xs: seq<Option<T>>)
    ensures forall x :: x in Somes(xs) <==> Some(x) in xs
  {
    if xs != [] {
      SomesMembers(xs[1..]);
      assert forall o :: o in xs <==> o == xs[0] || o in xs[1..];
    }
  }
}
