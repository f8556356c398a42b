/** Generic helpers over iterables (utils.py): `first`, `first_or_none` and the lazy
    lock-step `overlap` test. A Python iterable is modelled as a finite sequence that is
    consumed from the front. */
module Iterables {

  datatype Option<T> = None | Some(value: T)

  /** A value or the exception that ended the computation. */
  datatype Result<T, E> = Ok(value: T) | Err(error: E)

  /** Raised by `next` on an exhausted iterator. */
  datatype StopIteration = StopIteration

  /** `first`: the first element of the iterable, or StopIteration when there is none. */
  function First<T>(s: seq<T>): (r: Result<T, StopIteration>)
    ensures r.Err? <==> s == []
    ensures r.Ok? ==> r.value in s && r.value == s[0]
  {
    if s == [] then Err(StopIteration) else Ok(s[0])
  }

  /** `first_or_none`: `first`, with StopIteration turned into None. */
  function FirstOrNone<T>(s: seq<T>): (r: Option<T>)
    ensures r.None? <==> s == []
    ensures r.Some? ==> r.value in s && r.value == s[0]
  {
    match First(s)
    case Ok(x) => Some(x)
    case Err(_) => None
  }

  /** No element occurs twice. */
  predicate Distinct<T(==)>(s: seq<T>) {
    forall i, j :: 0 <= i < j < |s| ==> s[i] != s[j]
  }

  /** A list comprehension with a condition, or `filter`: the elements that pass, in order. */
  function Filter<T(==)>(s: seq<T>, keep: T -> bool): (r: seq<T>)
    ensures forall i :: 0 <= i < |r| ==> r[i] in s && keep(r[i])
    ensures forall i :: 0 <= i < |s| && keep(s[i]) ==> s[i] in r
    ensures |r| <= |s|
    ensures Distinct(s) ==> Distinct(r)
  {
    if s == [] then []
    else
      var rest := Filter(s[1..], keep);
      assert Distinct(s) ==> s[0] !in s[1..] by {
        if Distinct(s) {
          forall k | 0 <= k < |s| - 1 ensures s[1..][k] != s[0] {
            assert s[1..][k] == s[k + 1];
          }
        }
      }
      if keep(s[0]) then [s[0]] + rest else rest
  }

  /** Filtering a single element keeps it exactly when it passes. */
  lemma FilterSingleton<T>(x: T, keep: T -> bool)
    ensures Filter([x], keep) == if keep(x) then [x] else []
  {
    assert [x][1..] == [];
  }

  /** Filtering distributes over concatenation; with `FilterSingleton` this fixes the result
      element by element, so order and repetitions are those of `s`. */
  lemma {:induction false} FilterAppend<T>(s: seq<T>, t: seq<T>, keep: T -> bool)
    ensures Filter(s + t, keep) == Filter(s, keep) + Filter(t, keep)
    decreases |s|
  {
    if s == [] {
      assert s + t == t;
    } else {
      assert (s + t)[1..] == s[1..] + t;
      FilterAppend(s[1..], t, keep);
    }
  }

  /** The first element filtering keeps is the first element of `s` that passes. */
  lemma {:induction false} FilterHead<T>(s: seq<T>, keep: T -> bool)
    requires Filter(s, keep) != []
    ensures exists k :: 0 <= k < |s| && s[k] == Filter(s, keep)[0] && forall j :: 0 <= j < k ==> !keep(s[j])
    decreases |s|
  {
    if keep(s[0]) {
      assert s[0] == Filter(s, keep)[0];
    } else {
      FilterHead(s[1..], keep);
      var k :| 0 <= k < |s[1..]| && s[1..][k] == Filter(s[1..], keep)[0]
               && forall j :: 0 <= j < k ==> !keep(s[1..][j]);
      assert s[k + 1] == Filter(s, keep)[0];
      forall j | 0 <= j < k + 1 ensures !keep(s[j]) {
        if j > 0 {
          assert s[j] == s[1..][j - 1];
        }
      }
    }
  }

  /** The elements of a sequence, as the set an iteration over it fills. */
  function Elements<T>(s: seq<T>): set<T> {
    set x | x in s
  }

  /** The two iterables share an element. */
  predicate Overlaps<T(==)>(a: seq<T>, b: seq<T>) {
    exists x :: x in a && x in b
  }

  /** The first `n` elements of `s`, or all of them when there are fewer. */
  function Take<T>(s: seq<T>, n: nat): (r: seq<T>)
    ensures |r| == if n <= |s| then n else |s|
  {
    if n <= |s| then s[..n] else s
  }

  /** `overlap`: pulls one element from each iterator per round, each side remembering what
      it has seen, and answers as soon as a freshly pulled element was already seen on the
      other side. The answer is the plain "some element occurs in both"; `rounds` is the
      number of rounds started, and when the answer is true the search stopped in the first
      round whose prefixes overlap, so no element past that round was consumed. */
  method Overlap<T(==)>(a: seq<T>, b: seq<T>) returns (r: bool, ghost rounds: nat)
    ensures r == Overlaps(a, b)
    ensures r ==> rounds >= 1 && Overlaps(Take(a, rounds), Take(b, rounds))
                  && !Overlaps(Take(a, rounds - 1), Take(b, rounds - 1))
  {
    var metInA: set<T> := {};
    var metInB: set<T> := {};
    var i, j := 0, 0;  // how far each iterator has been advanced
    var overA, overB := false, false;
    rounds := 0;
    while !(overA && overB)
      invariant i <= |a| && j <= |b|
      invariant if overA then i == |a| <= rounds else i == rounds
      invariant if overB then j == |b| <= rounds else j == rounds
      invariant metInA == Elements(a[..i])
      invariant metInB == Elements(b[..j])
      invariant !Overlaps(a[..i], b[..j])
      decreases (if overA then 0 else |a| - i + 1) + (if overB then 0 else |b| - j + 1)
    {
      ghost var i0 := i;
      if !overA {
        if i < |a| {
          var itemA := a[i];
          if itemA in metInB {
            MetEarlierInB(a, b, i, j, rounds);
            return true, rounds + 1;
          }
          NotMetInB(a, b, i, j);
          metInA := metInA + {itemA};
          i := i + 1;
        } else {
          overA := true;
        }
      }
      if !overB {
        if j < |b| {
          var itemB := b[j];
          if itemB in metInA {
            MetEarlierInA(a, b, i0, i, j, rounds);
            return true, rounds + 1;
          }
          NotMetInA(a, b, i, j);
          metInB := metInB + {itemB};
          j := j + 1;
        } else {
          overB := true;
        }
      }
      rounds := rounds + 1;
    }
    assert a[..i] == a && b[..j] == b;
    return false, rounds;
  }

  /** The element pulled from `a` in round `rounds + 1` was already met in `b`: that round
      is the first whose prefixes overlap. */
  lemma MetEarlierInB<T>(a: seq<T>, b: seq<T>, i: nat, j: nat, rounds: nat)
    requires i == rounds < |a| && j == (if rounds <= |b| then rounds else |b|)
    requires a[i] in b[..j] && !Overlaps(a[..i], b[..j])
    ensures Overlaps(a, b)
    ensures Overlaps(Take(a, rounds + 1), Take(b, rounds + 1)) && !Overlaps(Take(a, rounds), Take(b, rounds))
  {
    var k :| 0 <= k < j && b[..j][k] == a[i];
    assert Take(a, rounds + 1)[i] == a[i] && Take(b, rounds + 1)[k] == b[k];
    assert a[i] in Take(a, rounds + 1) && a[i] in Take(b, rounds + 1);
    assert a[i] in a && a[i] in b;
    assert Take(a, rounds) == a[..i] && Take(b, rounds) == b[..j];
  }

  /** The element pulled from `b` in round `rounds + 1` was already met in `a`, which may
      have advanced in the same round. */
  lemma MetEarlierInA<T>(a: seq<T>, b: seq<T>, i0: nat, i: nat, j: nat, rounds: nat)
    requires i0 == (if rounds <= |a| then rounds else |a|) && i0 <= i <= |a| && i <= rounds + 1
    requires j == rounds < |b|
    requires b[j] in a[..i] && !Overlaps(a[..i], b[..j])
    ensures Overlaps(a, b)
    ensures Overlaps(Take(a, rounds + 1), Take(b, rounds + 1)) && !Overlaps(Take(a, rounds), Take(b, rounds))
  {
    var k :| 0 <= k < i && a[..i][k] == b[j];
    assert Take(b, rounds + 1)[j] == b[j] && Take(a, rounds + 1)[k] == a[k];
    assert b[j] in Take(a, rounds + 1) && b[j] in Take(b, rounds + 1);
    assert b[j] in a && b[j] in b;
    assert Take(b, rounds) == b[..j];
    assert Take(a, rounds) == a[..i0];
    forall x | x in a[..i0] ensures x in a[..i] {
      var m :| 0 <= m < i0 && a[..i0][m] == x;
      assert a[..i][m] == x;
    }
  }

  lemma NotMetInB<T>(a: seq<T>, b: seq<T>, i: nat, j: nat)
    requires i < |a| && j <= |b| && a[i] !in b[..j] && !Overlaps(a[..i], b[..j])
    ensures !Overlaps(a[..i + 1], b[..j])
    ensures Elements(a[..i + 1]) == Elements(a[..i]) + {a[i]}
  {
    assert a[..i + 1] == a[..i] + [a[i]];
  }

  lemma NotMetInA<T>(a: seq<T>, b: seq<T>, i: nat, j: nat)
    requires i <= |a| && j < |b| && b[j] !in a[..i] && !Overlaps(a[..i], b[..j])
    ensures !Overlaps(a[..i], b[..j + 1])
    ensures Elements(b[..j + 1]) == Elements(b[..j]) + {b[j]}
  {
    assert b[..j + 1] == b[..j] + [b[j]];
  }

  /** An empty iterable overlaps nothing. */
  lemma OverlapsEmpty<T>(a: seq<T>)
    ensures !Overlaps(a, []) && !Overlaps([], a)
  {
  }

  /** Overlap is symmetric. */
  lemma OverlapsSymmetric<T>(a: seq<T>, b: seq<T>)
    ensures Overlaps(a, b) == Overlaps(b, a)
  {
  }

  /** Overlap against a singleton is membership. */
  lemma OverlapsSingleton<T>(x: T, b: seq<T>)
    ensures Overlaps([x], b) <==> x in b
  {
    if x in b {
      assert x in [x];
    }
  }
}
