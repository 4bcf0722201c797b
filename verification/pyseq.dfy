/**
 * Python list indexing and slicing. Negative indices count from the end
 * (`s[-1]` is the last element), and slice bounds are clamped into range
 * rather than rejected.
 */
module PySeq {

  import opened Wrappers

  /** `s[i]`: a negative index counts from the end; out of range raises. */
  function At<T>(s: seq<T>, i: int): (r: Result<T>)
    ensures r.Ok? <==> -|s| <= i < |s|
    ensures 0 <= i < |s| ==> r == Ok(s[i])
    ensures -|s| <= i < 0 ==> r == Ok(s[|s| + i])
    ensures r.Err? ==> r.error == IndexError
  {
    if 0 <= i < |s| then Ok(s[i])
    else if -|s| <= i < 0 then Ok(s[|s| + i])
    else Err(IndexError)
  }

  /** A slice bound after Python's normalisation: negative values count from
      the end, then the value is clamped into 0..|s|. */
  function Bound(n: nat, b: int): (r: nat)
    ensures r <= n
    ensures 0 <= b <= n ==> r == b
    ensures -(n as int) <= b < 0 ==> r == n + b
    ensures b > n ==> r == n
    ensures b < -(n as int) ==> r == 0
  {
    if b < 0 then (if b + n < 0 then 0 else b + n)
    else if b > n then n
    else b
  }

  /** `s[a:b]`. */
  function Slice<T>(s: seq<T>, a: int, b: int): (r: seq<T>)
    ensures Bound(|s|, a) <= Bound(|s|, b) ==> r == s[Bound(|s|, a)..Bound(|s|, b)]
    ensures Bound(|s|, a) >= Bound(|s|, b) ==> r == []
  {
    var lo := Bound(|s|, a);
    var hi := Bound(|s|, b);
    if lo < hi then s[lo..hi] else []
  }

  /** `s[a:]`. */
  function From<T>(s: seq<T>, a: int): (r: seq<T>)
    ensures r == s[Bound(|s|, a)..]
  {
    Slice(s, a, |s|)
  }

  /** `s[:b]`. */
  function Until<T>(s: seq<T>, b: int): (r: seq<T>)
    ensures r == s[..Bound(|s|, b)]
  {
    Slice(s, 0, b)
  }

  /** `s.index(x)`: the position of the first occurrence, ValueError if absent. */
  function IndexOf<T(==)>(s: seq<T>, x: T): (r: Result<nat>)
    ensures r.Ok? <==> x in s
    ensures r.Ok? ==> r.value < |s| && s[r.value] == x && x !in s[..r.value]
    ensures r.Err? ==> r.error == ValueError
  {
    if |s| == 0 then Err(ValueError)
    else if s[0] == x then Ok(0)
    else
      var r := IndexOf(s[1..], x);
      if r.Ok? then
        assert s[..r.value + 1] == [s[0]] + s[1..][..r.value];
        Ok(r.value + 1)
      else
        assert s == [s[0]] + s[1..];
        Err(ValueError)
  }

  /** In a sequence without repeats, the position of `s[i]` is `i`. */
  lemma IndexOfDistinct<T>(s: seq<T>, i: nat)
    requires i < |s|
    requires forall a, b :: 0 <= a < b < |s| ==> s[a] != s[b]
    ensures IndexOf(s, s[i]) == Ok(i)
  {
    assert s[i] in s;
  }

  function Reverse<T>(s: seq<T>): (r: seq<T>)
    ensures |r| == |s|
    ensures forall i :: 0 <= i < |s| ==> r[i] == s[|s| - 1 - i]
  {
    seq(|s|, i requires 0 <= i < |s| => s[|s| - 1 - i])
  }

  /** No element occurs twice. */
  predicate Distinct<T(==)>(s: seq<T>) {
    forall a, b :: 0 <= a < b < |s| ==> s[a] != s[b]
  }

  /** A new element appended to a list without repeats repeats nothing. */
  lemma DistinctAppend<T>(s: seq<T>, x: T)
    requires Distinct(s) && x !in s
    ensures Distinct(s + [x])
  {
    var t := s + [x];
    forall a, b | 0 <= a < b < |t| ensures t[a] != t[b] {
      assert t[a] == s[a];
    }
  }
}
