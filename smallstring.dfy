/**
 * The element type of a tag set: a string of at most N characters
 * (`SmallString<N>`). Its byte buffer and UTF-8 encoding are not part of this
 * model; a value is its sequence of Unicode scalar values, so its length is a
 * character count, equality is structural and order is lexicographic.
 */
module SmallString {
  import opened Wrappers

  /** The one way building a `SmallString<N>` can fail. */
  datatype SmallStringError = TooLong(actual: nat, max: nat)

  /** `SmallString::<N>::from_str`: accept `s` unchanged exactly when it fits. */
  function FromStr(s: string, n: nat): (r: Result<string, SmallStringError>)
    ensures r.Ok? <==> |s| <= n
    ensures r.Ok? ==> r.value == s && |r.value| <= n
    ensures r.Err? ==> r.error == TooLong(|s|, n) && r.error.actual > r.error.max
  {
    if |s| <= n then Ok(s) else Err(TooLong(|s|, n))
  }

  /**
   * Strict lexicographic order on strings. Characters compare by code point,
   * which is also the byte order of their UTF-8 encodings, and a proper prefix
   * sorts first.
   */
  predicate Less(a: string, b: string)
    decreases |a|
  {
    if |a| == 0 then |b| > 0
    else if |b| == 0 then false
    else a[0] < b[0] || (a[0] == b[0] && Less(a[1..], b[1..]))
  }

  lemma {:induction false} LessIrreflexive(a: string)
    ensures !Less(a, a)
    decreases |a|
  {
    if |a| > 0 {
      LessIrreflexive(a[1..]);
    }
  }

  lemma {:induction false} LessAsymmetric(a: string, b: string)
    ensures Less(a, b) ==> !Less(b, a)
    decreases |a|
  {
    if |a| > 0 && |b| > 0 {
      LessAsymmetric(a[1..], b[1..]);
    }
  }

  lemma {:induction false} LessTransitive(a: string, b: string, c: string)
    requires Less(a, b) && Less(b, c)
    ensures Less(a, c)
    decreases |a|
  {
    if |a| > 0 && a[0] == b[0] && b[0] == c[0] {
      LessTransitive(a[1..], b[1..], c[1..]);
    }
  }

  /** Any two strings are comparable: the order is total. */
  lemma {:induction false} LessTrichotomy(a: string, b: string)
    ensures Less(a, b) || a == b || Less(b, a)
    decreases |a|
  {
    if |a| > 0 && |b| > 0 && a[0] == b[0] {
      LessTrichotomy(a[1..], b[1..]);
      if a[1..] == b[1..] {
        assert a == [a[0]] + a[1..] && b == [b[0]] + b[1..];
      }
    }
  }
}
