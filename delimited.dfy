/** Comma-delimited lists of strings, as the rate limiter stores them: the
    behaviour of JavaScript's `Array.prototype.join(',')`,
    `String.prototype.split(',')`, `Array.prototype.indexOf`, `push` of a
    missing element and `splice(i, 1)`. */
module Delimited {

  /** The separator of the master list; a rate-limit key may not contain it. */
  const Delimiter: char := ','

  /** Every element of `l` is a field: it holds no delimiter. */
  predicate Fields(l: seq<string>)
  {
    forall i :: 0 <= i < |l| ==> Delimiter !in l[i]
  }

  predicate NoDuplicates<T(==)>(l: seq<T>)
  {
    forall i, j :: 0 <= i < j < |l| ==> l[i] != l[j]
  }

  /** `l.join(',')`: the empty list joins to the empty string. */
  function Join(l: seq<string>): string
  {
    if |l| == 0 then ""
    else if |l| == 1 then l[0]
    else l[0] + [Delimiter] + Join(l[1..])
  }

  /** Only the empty list and the list of one empty string join to the
      empty string; any longer list holds a delimiter. */
  lemma JoinIsEmpty(l: seq<string>)
    ensures Join(l) == "" <==> l == [] || l == [""]
  {
  }

  /** `s.split(',')`: always at least one field, so `"".split(',')` is `[""]`.
      Joining the fields again gives back the string, whatever it holds. */
  function Split(s: string): (r: seq<string>)
    ensures |r| >= 1 && Fields(r)
    ensures Join(r) == s
  {
    if |s| == 0 then [""]
    else
      var rest := Split(s[1..]);
      if s[0] == Delimiter then
        assert ([""] + rest)[1..] == rest;
        [""] + rest
      else
        var r := [[s[0]] + rest[0]] + rest[1..];
        assert r[1..] == rest[1..];
        assert |rest| > 1 ==> Join(r) == [s[0]] + (rest[0] + [Delimiter] + Join(rest[1..]));
        assert s == [s[0]] + s[1..];
        r
  }

  /** Splitting a string that starts with a delimiter-free field `a`. */
  lemma {:induction false} SplitPrefix(a: string, t: string)
    requires Delimiter !in a
    ensures Split(a + t) == [a + Split(t)[0]] + Split(t)[1..]
  {
    if |a| == 0 {
      assert a + t == t;
      assert a + Split(t)[0] == Split(t)[0];
      assert Split(t) == [Split(t)[0]] + Split(t)[1..];
    } else {
      assert (a + t)[0] == a[0] && (a + t)[1..] == a[1..] + t;
      SplitPrefix(a[1..], t);
      assert [a[0]] + (a[1..] + Split(t)[0]) == a + Split(t)[0];
    }
  }

  /** Splitting a join gives the list back, for a non-empty list of fields. */
  lemma {:induction false} SplitJoin(l: seq<string>)
    requires |l| >= 1 && Fields(l)
    ensures Split(Join(l)) == l
  {
    if |l| == 1 {
      SplitPrefix(l[0], "");
      assert l[0] + "" == l[0];
    } else {
      var tail := Join(l[1..]);
      SplitJoin(l[1..]);
      assert Join(l) == l[0] + ([Delimiter] + tail);
      SplitPrefix(l[0], [Delimiter] + tail);
      assert ([Delimiter] + tail)[1..] == tail;
      assert Split([Delimiter] + tail) == [""] + l[1..];
      assert l[0] + "" == l[0];
      assert l == [l[0]] + l[1..];
    }
  }

  /** `l.indexOf(x)`: the position of the first occurrence of `x`, or -1. */
  function IndexOf<T(==)>(l: seq<T>, x: T): (r: int)
    ensures r == -1 <==> x !in l
    ensures r != -1 ==> 0 <= r < |l| && l[r] == x && forall j :: 0 <= j < r ==> l[j] != x
  {
    if |l| == 0 then -1
    else if l[0] == x then 0
    else
      var i := IndexOf(l[1..], x);
      if i == -1 then -1
      else i + 1
  }

  /** The list after `if (l.indexOf(x) === -1) l.push(x)`. */
  function PushIfAbsent(l: seq<string>, x: string): (r: seq<string>)
    ensures x in r && l <= r
    ensures x in l ==> |r| == |l|
    ensures x !in l ==> |r| == |l| + 1
    ensures forall y :: y in r <==> y in l || y == x
    ensures NoDuplicates(l) ==> NoDuplicates(r)
  {
    if x in l then l else l + [x]
  }

  /** The list with the first occurrence of `x` taken out, every other
      element kept in order; a list without `x` is left as it is. */
  function RemoveFirst(l: seq<string>, x: string): (r: seq<string>)
    ensures x !in l ==> r == l
    ensures x in l ==> |r| == |l| - 1
    ensures forall y :: y != x ==> (y in r <==> y in l)
  {
    if |l| == 0 then []
    else if l[0] == x then l[1..]
    else [l[0]] + RemoveFirst(l[1..], x)
  }

  /** Removing the first occurrence is the splice `l.splice(l.indexOf(x), 1)`. */
  lemma {:induction false} RemoveFirstIsSplice(l: seq<string>, x: string)
    requires x in l
    ensures RemoveFirst(l, x) == l[..IndexOf(l, x)] + l[IndexOf(l, x) + 1..]
  {
    RemoveFirstAt(l, x, IndexOf(l, x));
  }

  /** Removing the first occurrence, given its position `k`. */
  lemma {:induction false} RemoveFirstAt(l: seq<string>, x: string, k: int)
    requires 0 <= k < |l| && l[k] == x
    requires forall j :: 0 <= j < k ==> l[j] != x
    ensures RemoveFirst(l, x) == l[..k] + l[k + 1..]
  {
    if k == 0 {
      assert l[..0] + l[1..] == l[1..];
    } else {
      RemoveFirstAt(l[1..], x, k - 1);
      assert l[..k] == [l[0]] + l[1..][..k - 1];
      assert l[k + 1..] == l[1..][k..];
    }
  }

  /** In a list without duplicates, removing `x` removes it entirely and
      keeps every other element, still without duplicates. */
  lemma {:induction false} RemoveFirstUnique(l: seq<string>, x: string)
    requires NoDuplicates(l)
    ensures NoDuplicates(RemoveFirst(l, x)) && x !in RemoveFirst(l, x)
  {
    if |l| > 0 {
      var t := l[1..];
      assert NoDuplicates(t) by {
        forall i, j | 0 <= i < j < |t| ensures t[i] != t[j] { assert t[i] == l[i + 1] && t[j] == l[j + 1]; }
      }
      assert l[0] !in t by {
        forall j | 0 <= j < |t| ensures t[j] != l[0] { assert t[j] == l[j + 1]; }
      }
      if l[0] != x {
        RemoveFirstUnique(t, x);
        var r := RemoveFirst(t, x);
        assert l[0] !in r;
        assert RemoveFirst(l, x) == [l[0]] + r;
        assert NoDuplicates([l[0]] + r) by {
          forall i, j | 0 <= i < j < |r| + 1 ensures ([l[0]] + r)[i] != ([l[0]] + r)[j] {
            if i > 0 { assert ([l[0]] + r)[i] == r[i - 1]; }
            assert ([l[0]] + r)[j] == r[j - 1];
          }
        }
      }
    }
  }
}
