/** Failure-carrying wrappers shared by the other modules. */
module Common {

  datatype Option<+T> = None | Some(value: T)

  datatype Result<+T, +E> = Success(value: T) | Failure(error: E)

  /** True when `p` is a prefix of `s`. */
  predicate IsPrefix(p: string, s: string)
  {
    |p| <= |s| && s[..|p|] == p
  }

  /** True when `p` is a suffix of `s`. */
  predicate IsSuffix(p: string, s: string)
  {
    |p| <= |s| && s[|s| - |p|..] == p
  }

  /** Splits `s` at the first occurrence of `c`: the part before it and the part after it. */
  function SplitAtFirst(s: string, c: char): (r: Option<(string, string)>)
    ensures r.None? <==> c !in s
    ensures r.Some? ==> c !in r.value.0 && s == r.value.0 + [c] + r.value.1
  {
    if |s| == 0 then None
    else if s[0] == c then Some(([], s[1..]))
    else match SplitAtFirst(s[1..], c)
      case None => None
      case Some(parts) => Some(([s[0]] + parts.0, parts.1))
  }

  /** Splitting `a + [c] + b` at `c` gives back `a` and `b` when `a` does not contain `c`. */
  lemma {:induction false} SplitAtFirstOfJoin(a: string, c: char, b: string)
    requires c !in a
    ensures SplitAtFirst(a + ([c] + b), c) == Some((a, b))
  {
    var s := a + ([c] + b);
    if |a| == 0 {
      assert s == [c] + b;
      assert s[0] == c && s[1..] == b;
    } else {
      assert s[0] == a[0] != c;
      assert s[1..] == a[1..] + ([c] + b);
      SplitAtFirstOfJoin(a[1..], c, b);
      assert [a[0]] + a[1..] == a;
    }
  }

  /** A string starts with `p` when it is `p` followed by `rest`, and dropping `p` leaves `rest`. */
  lemma StripPrefix(p: string, rest: string)
    ensures IsPrefix(p, p + rest) && (p + rest)[|p|..] == rest
  {
    assert (p + rest)[..|p|] == p;
  }

  /** Appending keeps a prefix. */
  lemma PrefixOfAppend(p: string, a: string, b: string)
    requires IsPrefix(p, a)
    ensures IsPrefix(p, a + b)
  {
    assert (a + b)[..|p|] == a[..|p|];
  }

  /** Prepending keeps a suffix. */
  lemma SuffixOfPrepend(q: string, a: string, b: string)
    requires IsSuffix(q, b)
    ensures IsSuffix(q, a + b)
  {
    assert (a + b)[|a + b| - |q|..] == b[|b| - |q|..];
  }
}
