/**
 * The abstract value of a tag set: the sequence `tags[0..length)`. This module
 * states, on plain sequences, what the set keeps invariant (strictly ascending
 * tags that each fit the element bound, no more of them than the capacity) and
 * what each operation does to it. The class in module TagSets is proved
 * against these functions.
 */
module TagList {
  import opened Wrappers
  import opened SmallString

  /** `TagSetError`. `TagTooLong` is declared by the source but never produced. */
  datatype TagSetError =
    | TooManyTags(actual: nat, max: nat)
    | TagTooLong(actual: nat, max: nat)
    | InvalidTag(inner: SmallStringError)

  /** Every pair of entries is in strictly ascending order (so no duplicates). */
  ghost predicate StrictlyAscending(s: seq<string>) {
    forall i, j | 0 <= i < j < |s| :: Less(s[i], s[j])
  }

  /** Every entry is a `SmallString<maxTagLen>`. */
  ghost predicate AllFit(s: seq<string>, maxTagLen: nat) {
    forall i | 0 <= i < |s| :: |s[i]| <= maxTagLen
  }

  /** The representation invariant of `TagSet<maxTags, maxTagLen>`. */
  ghost predicate ValidTags(s: seq<string>, maxTags: nat, maxTagLen: nat) {
    |s| <= maxTags && StrictlyAscending(s) && AllFit(s, maxTagLen)
  }

  /** The set of entries of `s`. */
  ghost function Elems(s: seq<string>): set<string> {
    set x | x in s
  }

  lemma AscendingTail(s: seq<string>)
    requires StrictlyAscending(s) && |s| > 0
    ensures StrictlyAscending(s[1..])
    ensures forall y | y in s[1..] :: Less(s[0], y)
  {
  }

  lemma {:induction false} AscendingCons(a: string, s: seq<string>)
    requires StrictlyAscending(s)
    requires forall y | y in s :: Less(a, y)
    ensures StrictlyAscending([a] + s)
  {
    var t := [a] + s;
    forall i, j | 0 <= i < j < |t| ensures Less(t[i], t[j]) {
      if i == 0 {
        assert t[j] == s[j - 1];
      } else {
        assert t[i] == s[i - 1] && t[j] == s[j - 1];
      }
    }
  }

  /** A strictly ascending sequence has no repeated entries. */
  lemma AscendingDistinct(s: seq<string>, i: nat, j: nat)
    requires StrictlyAscending(s) && i < |s| && j < |s| && s[i] == s[j]
    ensures i == j
  {
    if i < j {
      LessIrreflexive(s[i]);
    } else if j < i {
      LessIrreflexive(s[i]);
    }
  }

  /**
   * A strictly ascending sequence is determined by its entries: two of them
   * holding the same tags are equal. This is why the order in which tags are
   * added never shows.
   */
  lemma {:induction false} AscendingUnique(a: seq<string>, b: seq<string>)
    requires StrictlyAscending(a) && StrictlyAscending(b)
    requires forall x :: x in a <==> x in b
    ensures a == b
    decreases |a|
  {
    if a == [] {
      AscendingCard(b);
      assert Elems(b) == {};
    } else {
      assert a[0] in a;
      assert b != [];
      assert b[0] in b;
      if a[0] != b[0] {
        assert a[0] in b;
        var j :| 0 <= j < |b| && b[j] == a[0];
        var i :| 0 <= i < |a| && a[i] == b[0];
        assert j > 0 && i > 0;
        LessAsymmetric(a[0], b[0]);
        assert false;
      }
      AscendingTail(a);
      AscendingTail(b);
      forall x ensures x in a[1..] <==> x in b[1..] {
        if x in a[1..] {
          LessIrreflexive(a[0]);
          assert x != a[0] && x in a;
        }
        if x in b[1..] {
          LessIrreflexive(b[0]);
          assert x != b[0] && x in b;
        }
        assert a == [a[0]] + a[1..] && b == [b[0]] + b[1..];
      }
      AscendingUnique(a[1..], b[1..]);
      assert a == [a[0]] + a[1..] && b == [b[0]] + b[1..];
    }
  }

  /** A strictly ascending sequence has as many entries as distinct tags. */
  lemma {:induction false} AscendingCard(s: seq<string>)
    requires StrictlyAscending(s)
    ensures |Elems(s)| == |s|
    decreases |s|
  {
    if s != [] {
      AscendingTail(s);
      AscendingCard(s[1..]);
      LessIrreflexive(s[0]);
      assert s[0] !in Elems(s[1..]);
      assert s == [s[0]] + s[1..];
      assert Elems(s) == Elems(s[1..]) + {s[0]};
    }
  }

  // ---------------------------------------------------------------------------
  // Sorted insertion (the body of `_add_tag_ordered` once checks have passed)

  /** `s` with `x` placed before the first entry greater than it. */
  function InsertSorted(s: seq<string>, x: string): seq<string> {
    if s == [] then [x]
    else if Less(x, s[0]) then [x] + s
    else [s[0]] + InsertSorted(s[1..], x)
  }

  /**
   * Inserting a new tag into a strictly ascending sequence gives a strictly
   * ascending sequence one longer, holding exactly the old tags and the new one.
   */
  lemma {:induction false} InsertSortedProps(s: seq<string>, x: string)
    requires StrictlyAscending(s) && x !in s
    ensures |InsertSorted(s, x)| == |s| + 1
    ensures forall y :: y in InsertSorted(s, x) <==> y in s || y == x
    ensures StrictlyAscending(InsertSorted(s, x))
    decreases |s|
  {
    if s != [] {
      AscendingTail(s);
      if Less(x, s[0]) {
        forall y | y in s ensures Less(x, y) {
          if y != s[0] {
            LessTransitive(x, s[0], y);
          }
        }
        AscendingCons(x, s);
      } else {
        assert x != s[0];
        LessTrichotomy(x, s[0]);
        InsertSortedProps(s[1..], x);
        var r := InsertSorted(s[1..], x);
        forall y | y in r ensures Less(s[0], y) {
        }
        AscendingCons(s[0], r);
        assert s == [s[0]] + s[1..];
      }
    }
  }

  /**
   * Sorted insertion is what the source's shift loop does: it splits the
   * sequence at the insertion point `p` found by binary search.
   */
  lemma {:induction false} InsertSortedAt(s: seq<string>, x: string, p: nat)
    requires p <= |s|
    requires forall i | 0 <= i < p :: Less(s[i], x)
    requires forall i | p <= i < |s| :: Less(x, s[i])
    ensures InsertSorted(s, x) == s[..p] + [x] + s[p..]
    decreases |s|
  {
    if p == 0 {
      if s != [] {
        assert Less(x, s[0]);
      }
    } else {
      LessAsymmetric(s[0], x);
      InsertSortedAt(s[1..], x, p - 1);
      assert s[..p] == [s[0]] + s[1..][..p - 1];
      assert s[p..] == s[1..][p - 1..];
    }
  }

  // ---------------------------------------------------------------------------
  // `_add_tag_ordered`, `add_tag` and a sequence of `add_tag` calls

  /**
   * `_add_tag_ordered` on the abstract value: a tag already present is a
   * successful no-op (checked before capacity), a new tag on a full set fails
   * with `TooManyTags{length + 1, maxTags}`, otherwise it is inserted in order.
   */
  function AddOrdered(s: seq<string>, tag: string, maxTags: nat): (r: Result<seq<string>, TagSetError>)
    requires StrictlyAscending(s)
    ensures tag in s ==> r == Ok(s)
    ensures tag !in s && |s| >= maxTags ==> r == Err(TooManyTags(|s| + 1, maxTags))
    ensures tag !in s && |s| < maxTags ==> r.Ok? && |r.value| == |s| + 1
    ensures r.Ok? ==> StrictlyAscending(r.value) && forall y :: y in r.value <==> y in s || y == tag
  {
    if tag in s then Ok(s)
    else if |s| >= maxTags then Err(TooManyTags(|s| + 1, maxTags))
    else
      InsertSortedProps(s, tag);
      Ok(InsertSorted(s, tag))
  }

  /** `add_tag`: build the element (which may be too long), then `_add_tag_ordered`. */
  function Add(s: seq<string>, tag: string, maxTags: nat, maxTagLen: nat): (r: Result<seq<string>, TagSetError>)
    requires ValidTags(s, maxTags, maxTagLen)
    ensures |tag| > maxTagLen ==> r == Err(InvalidTag(TooLong(|tag|, maxTagLen)))
    ensures |tag| <= maxTagLen ==> r == AddOrdered(s, tag, maxTags)
    ensures r.Ok? ==> ValidTags(r.value, maxTags, maxTagLen)
  {
    match FromStr(tag, maxTagLen)
    case Err(e) => Err(InvalidTag(e))
    case Ok(t) =>
      var r := AddOrdered(s, t, maxTags);
      if r.Ok? then
        AllFitByMembers(s, r.value, t, maxTagLen);
        r
      else r
  }

  lemma AllFitByMembers(s: seq<string>, r: seq<string>, x: string, maxTagLen: nat)
    requires AllFit(s, maxTagLen) && |x| <= maxTagLen
    requires forall y :: y in r <==> y in s || y == x
    ensures AllFit(r, maxTagLen)
  {
    forall i | 0 <= i < |r| ensures |r[i]| <= maxTagLen {
      assert r[i] in r;
      if r[i] != x {
        var j :| 0 <= j < |s| && s[j] == r[i];
      }
    }
  }

  /**
   * One addition succeeds exactly when the tag fits and the distinct tags,
   * old and new, do not exceed the capacity; it then holds exactly those.
   */
  lemma AddElems(c: seq<string>, p: string, maxTags: nat, maxTagLen: nat)
    requires ValidTags(c, maxTags, maxTagLen)
    ensures Add(c, p, maxTags, maxTagLen).Ok? <==> |p| <= maxTagLen && |Elems(c) + {p}| <= maxTags
    ensures Add(c, p, maxTags, maxTagLen).Ok? ==> Elems(Add(c, p, maxTags, maxTagLen).value) == Elems(c) + {p}
  {
    AscendingCard(c);
    if p in c {
      assert Elems(c) + {p} == Elems(c);
    } else {
      assert p !in Elems(c);
      assert |Elems(c) + {p}| == |c| + 1;
    }
    var r := Add(c, p, maxTags, maxTagLen);
    if r.Ok? {
      assert Elems(r.value) == Elems(c) + {p};
    }
  }

  lemma AllFitSnoc(ps: seq<string>, p: string, maxTagLen: nat)
    ensures AllFit(ps + [p], maxTagLen) <==> AllFit(ps, maxTagLen) && |p| <= maxTagLen
  {
    var q := ps + [p];
    assert q[|ps|] == p;
    assert forall i | 0 <= i < |ps| :: q[i] == ps[i];
  }

  lemma CardMono(a: set<string>, b: set<string>)
    requires a <= b
    ensures |a| <= |b|
  {
    assert b == a + (b - a);
  }

  /** Adding the same tag twice gives the result of adding it once; a failed
      first addition leaves the set as it was, so the second fails alike. */
  lemma AddIdempotent(s: seq<string>, tag: string, maxTags: nat, maxTagLen: nat)
    requires ValidTags(s, maxTags, maxTagLen)
    ensures Add(After(s, Add(s, tag, maxTags, maxTagLen)), tag, maxTags, maxTagLen)
         == Add(s, tag, maxTags, maxTagLen)
  {
  }

  /** Two additions that fit, within capacity, both succeed and hold the old tags plus both. */
  lemma AddTwo(s: seq<string>, a: string, b: string, maxTags: nat, maxTagLen: nat)
    requires ValidTags(s, maxTags, maxTagLen)
    requires |a| <= maxTagLen && |b| <= maxTagLen && |Elems(s) + {a, b}| <= maxTags
    ensures Add(s, a, maxTags, maxTagLen).Ok?
    ensures Add(Add(s, a, maxTags, maxTagLen).value, b, maxTags, maxTagLen).Ok?
    ensures Elems(Add(Add(s, a, maxTags, maxTagLen).value, b, maxTags, maxTagLen).value) == Elems(s) + {a, b}
  {
    CardMono(Elems(s) + {a}, Elems(s) + {a, b});
    AddElems(s, a, maxTags, maxTagLen);
    var sa := Add(s, a, maxTags, maxTagLen).value;
    assert Elems(sa) + {b} == Elems(s) + {a, b};
    AddElems(sa, b, maxTags, maxTagLen);
  }

  /**
   * Adding two tags in either order gives the same set, when both fit and the
   * capacity holds the old tags and both new ones (otherwise the second
   * addition of one order may fail where the other order's does not).
   */
  lemma AddCommutes(s: seq<string>, a: string, b: string, maxTags: nat, maxTagLen: nat)
    requires ValidTags(s, maxTags, maxTagLen)
    requires |a| <= maxTagLen && |b| <= maxTagLen && |Elems(s) + {a, b}| <= maxTags
    ensures Add(s, a, maxTags, maxTagLen).Ok? && Add(s, b, maxTags, maxTagLen).Ok?
    ensures Add(Add(s, a, maxTags, maxTagLen).value, b, maxTags, maxTagLen).Ok?
    ensures Add(Add(s, a, maxTags, maxTagLen).value, b, maxTags, maxTagLen)
         == Add(Add(s, b, maxTags, maxTagLen).value, a, maxTags, maxTagLen)
  {
    AddTwo(s, a, b, maxTags, maxTagLen);
    assert {b, a} == {a, b};
    AddTwo(s, b, a, maxTags, maxTagLen);
    var ab := Add(Add(s, a, maxTags, maxTagLen).value, b, maxTags, maxTagLen).value;
    var ba := Add(Add(s, b, maxTags, maxTagLen).value, a, maxTags, maxTagLen).value;
    forall x ensures x in ab <==> x in ba {
      assert x in ab <==> x in Elems(ab);
      assert x in ba <==> x in Elems(ba);
    }
    AscendingUnique(ab, ba);
  }

  /**
   * The tags of `ps` added one after another to `c`, stopping at the first
   * error, as `from_str` does with the pieces of its input.
   */
  function AddAll(c: seq<string>, ps: seq<string>, maxTags: nat, maxTagLen: nat): (r: Result<seq<string>, TagSetError>)
    requires ValidTags(c, maxTags, maxTagLen)
    ensures r.Ok? ==> ValidTags(r.value, maxTags, maxTagLen)
    decreases |ps|
  {
    if ps == [] then Ok(c)
    else
      match AddAll(c, ps[..|ps| - 1], maxTags, maxTagLen)
      case Err(e) => Err(e)
      case Ok(c') => Add(c', ps[|ps| - 1], maxTags, maxTagLen)
  }

  /**
   * A run of additions succeeds exactly when every tag fits and the distinct
   * tags, old and new, do not exceed the capacity; it then holds exactly those.
   */
  lemma {:induction false} AddAllOk(c: seq<string>, ps: seq<string>, maxTags: nat, maxTagLen: nat)
    requires ValidTags(c, maxTags, maxTagLen)
    ensures AddAll(c, ps, maxTags, maxTagLen).Ok?
        <==> AllFit(ps, maxTagLen) && |Elems(c) + Elems(ps)| <= maxTags
    ensures AddAll(c, ps, maxTags, maxTagLen).Ok? ==>
              Elems(AddAll(c, ps, maxTags, maxTagLen).value) == Elems(c) + Elems(ps)
    decreases |ps|
  {
    if ps == [] {
      assert Elems(ps) == {};
      assert Elems(c) + Elems(ps) == Elems(c);
      AscendingCard(c);
    } else {
      var init, p := ps[..|ps| - 1], ps[|ps| - 1];
      assert ps == init + [p];
      assert Elems(ps) == Elems(init) + {p};
      AllFitSnoc(init, p, maxTagLen);
      AddAllOk(c, init, maxTags, maxTagLen);
      var before := Elems(c) + Elems(init);
      assert Elems(c) + Elems(ps) == before + {p};
      match AddAll(c, init, maxTags, maxTagLen)
      case Err(_) => {
        CardMono(before, before + {p});
      }
      case Ok(c') => {
        AddElems(c', p, maxTags, maxTagLen);
      }
    }
  }

  /**
   * Insertion order never shows: adding the tags of a strictly ascending `sorted`,
   * in any order and with any repetitions, to an empty set gives `sorted` itself.
   */
  lemma AddAllSorted(ps: seq<string>, sorted: seq<string>, maxTags: nat, maxTagLen: nat)
    requires ValidTags(sorted, maxTags, maxTagLen) && Elems(ps) == Elems(sorted)
    ensures AddAll([], ps, maxTags, maxTagLen) == Ok(sorted)
  {
    assert ValidTags([], maxTags, maxTagLen);
    AscendingCard(sorted);
    assert Elems([]) + Elems(ps) == Elems(sorted);
    forall t | t in ps ensures t in sorted {
      assert t in Elems(ps);
    }
    FitByElems(sorted, ps, maxTagLen);
    AddAllOk([], ps, maxTags, maxTagLen);
    var r := AddAll([], ps, maxTags, maxTagLen).value;
    forall x ensures x in r <==> x in sorted {
      assert x in r <==> x in Elems(r);
      assert x in sorted <==> x in Elems(sorted);
    }
    AscendingUnique(r, sorted);
  }

  /** Once a run of additions has failed, later additions do not change the error. */
  lemma {:induction false} AddAllPrefixErr(c: seq<string>, ps: seq<string>, qs: seq<string>, maxTags: nat, maxTagLen: nat)
    requires ValidTags(c, maxTags, maxTagLen)
    requires AddAll(c, ps, maxTags, maxTagLen).Err?
    ensures AddAll(c, ps + qs, maxTags, maxTagLen) == AddAll(c, ps, maxTags, maxTagLen)
    decreases |qs|
  {
    if qs == [] {
      assert ps + qs == ps;
    } else {
      var q' := qs[..|qs| - 1];
      AddAllPrefixErr(c, ps, q', maxTags, maxTagLen);
      assert (ps + qs)[..|ps + qs| - 1] == ps + q';
    }
  }

  /** A run over `ps + qs` is the run over `ps` continued with `qs`. */
  lemma {:induction false} AddAllConcat(c: seq<string>, ps: seq<string>, qs: seq<string>, maxTags: nat, maxTagLen: nat)
    requires ValidTags(c, maxTags, maxTagLen)
    requires AddAll(c, ps, maxTags, maxTagLen).Ok?
    ensures AddAll(c, ps + qs, maxTags, maxTagLen)
         == AddAll(AddAll(c, ps, maxTags, maxTagLen).value, qs, maxTags, maxTagLen)
    decreases |qs|
  {
    if qs == [] {
      assert ps + qs == ps;
    } else {
      var q' := qs[..|qs| - 1];
      AddAllConcat(c, ps, q', maxTags, maxTagLen);
      assert (ps + qs)[..|ps + qs| - 1] == ps + q';
    }
  }

  /** A successful run extended by one tag is that tag added to its result. */
  lemma AddAllSnoc(c: seq<string>, ps: seq<string>, p: string, maxTags: nat, maxTagLen: nat)
    requires ValidTags(c, maxTags, maxTagLen)
    requires AddAll(c, ps, maxTags, maxTagLen).Ok?
    ensures AddAll(c, ps + [p], maxTags, maxTagLen)
         == Add(AddAll(c, ps, maxTags, maxTagLen).value, p, maxTags, maxTagLen)
  {
    assert (ps + [p])[..|ps|] == ps;
  }

  /** The success or error of an operation, without its value. */
  function Status(r: Result<seq<string>, TagSetError>): Result<(), TagSetError> {
    if r.Ok? then Ok(()) else Err(r.error)
  }

  /** The tags after an operation: its value on success, `s` unchanged on error. */
  function After(s: seq<string>, r: Result<seq<string>, TagSetError>): seq<string> {
    if r.Ok? then r.value else s
  }

  /** Entries drawn from a sequence of fitting tags fit too. */
  lemma FitByElems(a: seq<string>, b: seq<string>, maxTagLen: nat)
    requires AllFit(a, maxTagLen) && forall t :: t in b ==> t in a
    ensures AllFit(b, maxTagLen)
  {
    forall i | 0 <= i < |b| ensures |b[i]| <= maxTagLen {
      assert b[i] in a;
    }
  }

  /** Two strictly ascending sequences are equal exactly when they hold the same tags. */
  lemma SameTagsEqual(a: seq<string>, b: seq<string>)
    requires StrictlyAscending(a) && StrictlyAscending(b)
    ensures (forall x :: x in a <==> x in b) <==> a == b
  {
    if forall x :: x in a <==> x in b {
      AscendingUnique(a, b);
    }
  }

  // ---------------------------------------------------------------------------
  // `remove_tag` on the abstract value

  /** `s` without the entries equal to `x`, the others kept in order. */
  function Without(s: seq<string>, x: string): seq<string> {
    if s == [] then []
    else if s[0] == x then Without(s[1..], x)
    else [s[0]] + Without(s[1..], x)
  }

  lemma {:induction false} WithoutAbsent(s: seq<string>, x: string)
    requires x !in s
    ensures Without(s, x) == s
    decreases |s|
  {
    if s != [] {
      WithoutAbsent(s[1..], x);
      assert s == [s[0]] + s[1..];
    }
  }

  /** Removing the tag at index `k` of a strictly ascending sequence is `Without`. */
  lemma {:induction false} WithoutAt(s: seq<string>, k: nat)
    requires StrictlyAscending(s) && k < |s|
    ensures Without(s, s[k]) == s[..k] + s[k + 1..]
    decreases |s|
  {
    var x := s[k];
    if k == 0 {
      assert x !in s[1..] by {
        if x in s[1..] {
          var j :| 0 <= j < |s[1..]| && s[1..][j] == x;
          AscendingDistinct(s, 0, j + 1);
        }
      }
      WithoutAbsent(s[1..], x);
    } else {
      if s[0] == x {
        AscendingDistinct(s, 0, k);
      }
      AscendingTail(s);
      WithoutAt(s[1..], k - 1);
      assert s[..k] == [s[0]] + s[1..][..k - 1];
      assert s[k + 1..] == s[1..][k..];
    }
  }

  /** Dropping index `k` of a strictly ascending sequence removes exactly `s[k]`. */
  lemma DropMembers(s: seq<string>, k: nat)
    requires StrictlyAscending(s) && k < |s|
    ensures forall y :: y in s[..k] + s[k + 1..] <==> y in s && y != s[k]
  {
    var r := s[..k] + s[k + 1..];
    forall y ensures y in r <==> y in s && y != s[k] {
      if y in r {
        var i :| 0 <= i < |r| && r[i] == y;
        if i < k {
          assert r[i] == s[i];
          if y == s[k] { AscendingDistinct(s, i, k); }
        } else {
          assert r[i] == s[i + 1];
          if y == s[k] { AscendingDistinct(s, i + 1, k); }
        }
      }
      if y in s && y != s[k] {
        var i :| 0 <= i < |s| && s[i] == y;
        if i < k {
          assert r[i] == y;
        } else {
          assert i > k && r[i - 1] == y;
        }
      }
    }
  }

  /** Dropping one index keeps a sequence strictly ascending. */
  lemma DropAscending(s: seq<string>, k: nat)
    requires StrictlyAscending(s) && k < |s|
    ensures StrictlyAscending(s[..k] + s[k + 1..])
  {
    var r := s[..k] + s[k + 1..];
    forall i, j | 0 <= i < j < |r| ensures Less(r[i], r[j]) {
      var i' := if i < k then i else i + 1;
      var j' := if j < k then j else j + 1;
      assert r[i] == s[i'] && r[j] == s[j'];
    }
  }

  /** Closing the gap left at index `k` of a valid tag list gives `Without` of its tag, again valid. */
  lemma WithoutValid(s: seq<string>, k: nat, maxTags: nat, maxTagLen: nat)
    requires ValidTags(s, maxTags, maxTagLen) && k < |s|
    ensures Without(s, s[k]) == s[..k] + s[k + 1..]
    ensures ValidTags(s[..k] + s[k + 1..], maxTags, maxTagLen)
  {
    WithoutAt(s, k);
    WithoutProps(s, s[k]);
    FitByElems(s, Without(s, s[k]), maxTagLen);
  }

  /**
   * Removing a present tag shortens a strictly ascending sequence by one,
   * keeps it strictly ascending and drops exactly that tag.
   */
  lemma WithoutProps(s: seq<string>, x: string)
    requires StrictlyAscending(s) && x in s
    ensures |Without(s, x)| == |s| - 1
    ensures forall y :: y in Without(s, x) <==> y in s && y != x
    ensures StrictlyAscending(Without(s, x))
  {
    var k :| 0 <= k < |s| && s[k] == x;
    WithoutAt(s, k);
    DropMembers(s, k);
    DropAscending(s, k);
  }

  // ---------------------------------------------------------------------------
  // `common_tags` on the abstract value

  /** The entries of `s` that also occur in `t`, in the order of `s`. */
  function Intersect(s: seq<string>, t: seq<string>): seq<string>
    decreases |s|
  {
    if s == [] then []
    else if s[|s| - 1] in t then Intersect(s[..|s| - 1], t) + [s[|s| - 1]]
    else Intersect(s[..|s| - 1], t)
  }

  /**
   * The intersection of a strictly ascending `s` with `t` is strictly
   * ascending, no longer than `s`, and holds exactly the tags in both.
   */
  lemma {:induction false} IntersectProps(s: seq<string>, t: seq<string>)
    requires StrictlyAscending(s)
    ensures |Intersect(s, t)| <= |s|
    ensures forall y :: y in Intersect(s, t) <==> y in s && y in t
    ensures StrictlyAscending(Intersect(s, t))
    decreases |s|
  {
    if s != [] {
      var init, last := s[..|s| - 1], s[|s| - 1];
      assert s == init + [last];
      IntersectProps(init, t);
      var r := Intersect(init, t);
      if last in t {
        forall i, j | 0 <= i < j < |r + [last]| ensures Less((r + [last])[i], (r + [last])[j]) {
          if j == |r| {
            var y := r[i];
            assert y in init;
            var m :| 0 <= m < |init| && init[m] == y;
            assert s[m] == y && s[|s| - 1] == last;
          }
        }
      }
    }
  }

  /**
   * Adding a tag greater than every entry appends it: why `common_tags`, which
   * visits the tags of a sorted set in order, builds its result by appending.
   */
  lemma {:induction false} InsertSortedLast(s: seq<string>, x: string)
    requires forall y | y in s :: Less(y, x)
    ensures InsertSorted(s, x) == s + [x]
    decreases |s|
  {
    if s != [] {
      assert s[0] in s;
      LessAsymmetric(s[0], x);
      InsertSortedLast(s[1..], x);
      assert s == [s[0]] + s[1..];
    }
  }

  /**
   * `common_tags` never meets the capacity error: adding the next shared tag
   * of a strictly ascending `s` to the intersection of the tags before it
   * succeeds and appends it.
   */
  lemma IntersectStep(s: seq<string>, t: seq<string>, i: nat, maxTags: nat)
    requires StrictlyAscending(s) && |s| <= maxTags && i < |s|
    ensures s[i] in t ==> StrictlyAscending(Intersect(s[..i], t))
                          && AddOrdered(Intersect(s[..i], t), s[i], maxTags) == Ok(Intersect(s[..i + 1], t))
    ensures s[i] !in t ==> Intersect(s[..i + 1], t) == Intersect(s[..i], t)
  {
    var p := s[..i + 1];
    assert p[..i] == s[..i] && p[i] == s[i];
    if s[i] in t {
      var r := Intersect(s[..i], t);
      IntersectProps(s[..i], t);
      forall y | y in r ensures Less(y, s[i]) {
        var m :| 0 <= m < i && s[m] == y;
      }
      LessIrreflexive(s[i]);
      InsertSortedLast(r, s[i]);
    }
  }
}
