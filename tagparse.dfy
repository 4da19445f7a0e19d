/**
 * The textual form a tag set is built from: tags separated by commas, every
 * whitespace character removed from each piece, empty pieces skipped.
 * `Parse` is what `TagSet::from_str` computes; the method itself is in module
 * TagSets and is proved against it.
 */
module TagParse {
  import opened Wrappers
  import opened TagList

  /**
   * `char::is_whitespace`: the characters with the Unicode White_Space
   * property.
   */
  predicate IsWhitespace(c: char) {
    var n := c as int;
    (0x09 <= n <= 0x0D) || n == 0x20 || n == 0x85 || n == 0xA0 || n == 0x1680
    || (0x2000 <= n <= 0x200A) || n == 0x2028 || n == 0x2029 || n == 0x202F
    || n == 0x205F || n == 0x3000
  }

  /** The characters of `s` that are not whitespace, in order. */
  function Strip(s: string): string {
    if s == [] then []
    else if IsWhitespace(s[0]) then Strip(s[1..])
    else [s[0]] + Strip(s[1..])
  }

  /** Stripping keeps exactly the characters that are not whitespace. */
  lemma {:induction false} StripChars(s: string)
    ensures |Strip(s)| <= |s|
    ensures forall c :: c in Strip(s) <==> c in s && !IsWhitespace(c)
    decreases |s|
  {
    if s != [] {
      StripChars(s[1..]);
      assert s == [s[0]] + s[1..];
    }
  }

  /** A single character survives stripping exactly when it is not whitespace. */
  lemma StripOne(c: char)
    ensures Strip([c]) == if IsWhitespace(c) then [] else [c]
  {
    assert [c][1..] == [];
  }

  /**
   * Stripping works character by character: it distributes over
   * concatenation. With `StripOne` this makes it the order-keeping filter.
   */
  lemma {:induction false} StripConcat(a: string, b: string)
    ensures Strip(a + b) == Strip(a) + Strip(b)
    decreases |a|
  {
    if a != [] {
      StripConcat(a[1..], b);
      assert (a + b)[1..] == a[1..] + b;
    } else {
      assert a + b == b;
    }
  }

  /**
   * `s` cut at every comma, left to right. There is always one more segment
   * than there are commas, so "" gives [""] and "a," gives ["a", ""].
   */
  function Split(s: string): (r: seq<string>)
    ensures |r| >= 1
    decreases |s|
  {
    if s == [] then [[]] else SplitStep(Split(s[..|s| - 1]), s[|s| - 1])
  }

  /** The segments after one more character `c`: a comma opens a new one. */
  function SplitStep(segs: seq<string>, c: char): (r: seq<string>)
    requires |segs| >= 1
    ensures |r| >= 1
  {
    if c == ',' then segs + [[]]
    else segs[..|segs| - 1] + [segs[|segs| - 1] + [c]]
  }

  /** The segments joined back together with a comma between neighbours. */
  function Join(segs: seq<string>): string
    requires |segs| >= 1
    decreases |segs|
  {
    if |segs| == 1 then segs[0]
    else Join(segs[..|segs| - 1]) + [','] + segs[|segs| - 1]
  }

  /** Splitting loses nothing: the segments hold no comma and join back to `s`. */
  lemma {:induction false} SplitJoin(s: string)
    ensures Join(Split(s)) == s
    ensures forall i | 0 <= i < |Split(s)| :: ',' !in Split(s)[i]
    decreases |s|
  {
    if s != [] {
      var pre, c := s[..|s| - 1], s[|s| - 1];
      assert s == pre + [c];
      SplitJoin(pre);
      StepJoin(Split(pre), c);
    }
  }

  /** One more character keeps the segments comma-free and extends their join by it. */
  lemma StepJoin(segs: seq<string>, c: char)
    requires |segs| >= 1
    requires forall i | 0 <= i < |segs| :: ',' !in segs[i]
    ensures Join(SplitStep(segs, c)) == Join(segs) + [c]
    ensures forall i | 0 <= i < |SplitStep(segs, c)| :: ',' !in SplitStep(segs, c)[i]
  {
    var r := SplitStep(segs, c);
    if c == ',' {
      assert r[..|r| - 1] == segs;
    } else {
      var n := |segs|;
      if n > 1 {
        assert r[..|r| - 1] == segs[..n - 1];
      }
      forall i | 0 <= i < |r| ensures ',' !in r[i] {
        if i < |r| - 1 {
          assert r[i] == segs[i];
        } else {
          assert r[i] == segs[n - 1] + [c];
        }
      }
    }
  }

  lemma {:induction false} SplitAppendSegment(x: string, y: string)
    requires ',' !in y
    ensures Split(x + [','] + y) == Split(x) + [y]
    decreases |y|
  {
    if y == [] {
      assert x + [','] + y == x + [','];
      assert (x + [','])[..|x|] == x;
    } else {
      var y', c := y[..|y| - 1], y[|y| - 1];
      assert y == y' + [c];
      SplitAppendSegment(x, y');
      var s := x + [','] + y;
      assert s[..|s| - 1] == x + [','] + y';
    }
  }

  /** Joining comma-free segments and splitting again gives them back. */
  lemma {:induction false} JoinSplit(segs: seq<string>)
    requires |segs| >= 1
    requires forall i | 0 <= i < |segs| :: ',' !in segs[i]
    ensures Split(Join(segs)) == segs
    decreases |segs|
  {
    if |segs| == 1 {
      SplitNoComma(segs[0]);
    } else {
      var init := segs[..|segs| - 1];
      JoinSplit(init);
      SplitAppendSegment(Join(init), segs[|segs| - 1]);
    }
  }

  lemma {:induction false} SplitNoComma(s: string)
    requires ',' !in s
    ensures Split(s) == [s]
    decreases |s|
  {
    if s != [] {
      SplitNoComma(s[..|s| - 1]);
      assert s == s[..|s| - 1] + [s[|s| - 1]];
    }
  }

  /** How `Split` extends by one character. */
  lemma SplitSnoc(s: string, c: char)
    ensures Split(s + [c]) == SplitStep(Split(s), c)
  {
    assert (s + [c])[..|s|] == s;
  }

  /** After a comma, splitting starts afresh: the segments of `y` follow those of `x`. */
  lemma {:induction false} SplitAfterComma(x: string, y: string)
    ensures Split(x + [','] + y) == Split(x) + Split(y)
    decreases |y|
  {
    if y == [] {
      assert x + [','] + y == x + [','];
      SplitSnoc(x, ',');
    } else {
      var y', c := y[..|y| - 1], y[|y| - 1];
      assert y == y' + [c];
      SplitAfterComma(x, y');
      SplitAfterCommaStep(x, y', c);
    }
  }

  lemma SplitAfterCommaStep(x: string, y: string, c: char)
    requires Split(x + [','] + y) == Split(x) + Split(y)
    ensures Split(x + [','] + (y + [c])) == Split(x) + Split(y + [c])
  {
    var a, q := Split(x + [','] + y), Split(y);
    SplitSnoc(y, c);
    assert x + [','] + (y + [c]) == (x + [','] + y) + [c];
    SplitSnoc(x + [','] + y, c);
    SplitStepAppend(Split(x), q, c);
  }

  lemma SplitStepAppend(p: seq<string>, q: seq<string>, c: char)
    requires |q| >= 1
    ensures SplitStep(p + q, c) == p + SplitStep(q, c)
  {
    var a := p + q;
    assert a[..|a| - 1] == p + q[..|q| - 1];
  }

  /** The stripped segments that are not empty, in order. */
  function NonEmptyStripped(segs: seq<string>): seq<string>
    decreases |segs|
  {
    if segs == [] then []
    else
      var rest := NonEmptyStripped(segs[..|segs| - 1]);
      var t := Strip(segs[|segs| - 1]);
      if t == [] then rest else rest + [t]
  }

  /** Every candidate tag is non-empty and free of whitespace. */
  lemma {:induction false} NonEmptyStrippedClean(segs: seq<string>)
    ensures forall i | 0 <= i < |NonEmptyStripped(segs)| ::
      NonEmptyStripped(segs)[i] != [] && forall c | c in NonEmptyStripped(segs)[i] :: !IsWhitespace(c)
    decreases |segs|
  {
    if segs != [] {
      NonEmptyStrippedClean(segs[..|segs| - 1]);
      StripChars(segs[|segs| - 1]);
    }
  }

  lemma {:induction false} NonEmptyStrippedConcat(a: seq<string>, b: seq<string>)
    ensures NonEmptyStripped(a + b) == NonEmptyStripped(a) + NonEmptyStripped(b)
    decreases |b|
  {
    if b == [] {
      assert a + b == a;
    } else {
      var b' := b[..|b| - 1];
      NonEmptyStrippedConcat(a, b');
      assert (a + b)[..|a + b| - 1] == a + b';
    }
  }

  /** The candidate tags of `s`, in the order they occur. */
  function Pieces(s: string): seq<string> {
    NonEmptyStripped(Split(s))
  }

  /** `TagSet::<maxTags, maxTagLen>::from_str(s)` on the abstract value. */
  function Parse(s: string, maxTags: nat, maxTagLen: nat): (r: Result<seq<string>, TagSetError>)
    ensures r.Ok? ==> ValidTags(r.value, maxTags, maxTagLen)
  {
    AddAll([], Pieces(s), maxTags, maxTagLen)
  }

  /**
   * Parsing succeeds exactly when every piece fits the element bound and
   * there are no more distinct pieces than the capacity; the set then holds
   * exactly the pieces.
   */
  lemma ParseOk(s: string, maxTags: nat, maxTagLen: nat)
    ensures Parse(s, maxTags, maxTagLen).Ok?
        <==> AllFit(Pieces(s), maxTagLen) && |Elems(Pieces(s))| <= maxTags
    ensures Parse(s, maxTags, maxTagLen).Ok? ==>
              forall t :: t in Parse(s, maxTags, maxTagLen).value <==> t in Pieces(s)
  {
    AddAllOk([], Pieces(s), maxTags, maxTagLen);
    assert Elems([]) == {};
    assert Elems([]) + Elems(Pieces(s)) == Elems(Pieces(s));
    var r := Parse(s, maxTags, maxTagLen);
    if r.Ok? {
      forall t ensures t in r.value <==> t in Pieces(s) {
        assert t in r.value <==> t in Elems(r.value);
        assert t in Pieces(s) <==> t in Elems(Pieces(s));
      }
    }
  }

  /**
   * Input order does not matter: two texts with the same pieces either both
   * fail or parse to the same set.
   */
  lemma ParseOrderIndependent(s1: string, s2: string, maxTags: nat, maxTagLen: nat)
    requires forall t :: t in Pieces(s1) <==> t in Pieces(s2)
    ensures Parse(s1, maxTags, maxTagLen).Ok? <==> Parse(s2, maxTags, maxTagLen).Ok?
    ensures Parse(s1, maxTags, maxTagLen).Ok? ==> Parse(s1, maxTags, maxTagLen) == Parse(s2, maxTags, maxTagLen)
  {
    ParseOk(s1, maxTags, maxTagLen);
    ParseOk(s2, maxTags, maxTagLen);
    assert Elems(Pieces(s1)) == Elems(Pieces(s2));
    if AllFit(Pieces(s1), maxTagLen) {
      FitByElems(Pieces(s1), Pieces(s2), maxTagLen);
    }
    if AllFit(Pieces(s2), maxTagLen) {
      FitByElems(Pieces(s2), Pieces(s1), maxTagLen);
    }
    if Parse(s1, maxTags, maxTagLen).Ok? {
      AscendingUnique(Parse(s1, maxTags, maxTagLen).value, Parse(s2, maxTags, maxTagLen).value);
    }
  }
}
