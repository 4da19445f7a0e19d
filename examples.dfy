/**
 * The behaviour the repository's own tests pin down, derived from the model:
 * whitespace removal, order independence, the capacity error and the
 * intersection.
 */
module TagExamples {
  import opened Wrappers
  import opened SmallString
  import opened TagList
  import opened TagParse

  lemma Distinct()
    ensures "t1" != "t2" && "t1" != "t3" && "t2" != "t3"
    ensures "t1" != "t4" && "t2" != "t4" && "t3" != "t4"
  {
    assert "t1"[1] == '1' && "t2"[1] == '2' && "t3"[1] == '3' && "t4"[1] == '4';
  }

  lemma StripSpaces()
    ensures Strip(" ") == [] && Strip("  ") == [] && Strip("   ") == [] && Strip("    ") == []
  {
    assert IsWhitespace(' ');
    assert Strip(" ") == [];
    assert Strip("  ") == [];
    assert Strip("   ") == [];
  }

  lemma StripAaa()
    ensures Strip(" aaa ") == "aaa"
  {
    StripSpaces();
    assert !IsWhitespace('a');
    assert Strip("a ") == "a";
    assert Strip("aa ") == "aa";
  }

  lemma StripBbbb()
    ensures Strip(" bb bb  ") == "bbbb"
  {
    StripSpaces();
    assert !IsWhitespace('b');
    assert Strip("b  ") == "b";
    assert Strip("bb  ") == "bb";
    assert Strip(" bb  ") == "bb";
    assert Strip("b bb  ") == "bbb";
  }

  lemma StripCcc()
    ensures Strip(" ccc    ") == "ccc"
  {
    StripSpaces();
    assert !IsWhitespace('c');
    assert Strip("c    ") == "c";
    assert Strip("cc    ") == "cc";
  }

  lemma SpacedSegments()
    ensures " aaa , bb bb  , ccc    " == " aaa " + "," + " bb bb  " + "," + " ccc    "
    ensures ',' !in " aaa " && ',' !in " bb bb  " && ',' !in " ccc    "
  {
  }

  lemma AbcSorted()
    ensures ValidTags(["aaa", "bbbb", "ccc"], 4, 16)
  {
    assert Less("aaa", "bbbb") && Less("bbbb", "ccc") && Less("aaa", "ccc");
  }

  /**
   * `" aaa , bb bb  , ccc    "` yields the pieces aaa, bbbb and ccc, and
   * parses to a set of exactly those three tags.
   */
  lemma WhitespaceIgnored()
    ensures Pieces(" aaa , bb bb  , ccc    ") == ["aaa", "bbbb", "ccc"]
    ensures Parse(" aaa , bb bb  , ccc    ", 4, 16) == Ok(["aaa", "bbbb", "ccc"])
  {
    StripAaa();
    StripBbbb();
    StripCcc();
    SpacedSegments();
    PiecesOf(" aaa ", " bb bb  ", " ccc    ");
    AbcSorted();
    AddAllSorted(["aaa", "bbbb", "ccc"], ["aaa", "bbbb", "ccc"], 4, 16);
  }

  lemma SplitOf(a: string, b: string, c: string)
    requires ',' !in a && ',' !in b && ',' !in c
    ensures Split(a + "," + b + "," + c) == [a, b, c]
  {
    var segs := [a, b, c];
    assert segs[..2] == [a, b];
    assert segs[..2][..1] == [a];
    assert Join(segs[..2]) == a + [','] + b;
    assert Join(segs) == a + "," + b + "," + c;
    JoinSplit(segs);
  }

  lemma PiecesOf(a: string, b: string, c: string)
    requires ',' !in a && ',' !in b && ',' !in c
    requires Strip(a) != [] && Strip(b) != [] && Strip(c) != []
    ensures Pieces(a + "," + b + "," + c) == [Strip(a), Strip(b), Strip(c)]
  {
    var segs := [a, b, c];
    SplitOf(a, b, c);
    assert segs[..2] == [a, b];
    assert segs[..2][..1] == [a];
    assert segs[..2][..1][..0] == [];
    assert NonEmptyStripped([a]) == [Strip(a)];
    assert NonEmptyStripped([a, b]) == [Strip(a), Strip(b)];
  }

  lemma StripT()
    ensures Strip("t1") == "t1" && Strip("t2") == "t2" && Strip("t3") == "t3"
  {
    assert !IsWhitespace('t') && !IsWhitespace('1') && !IsWhitespace('2') && !IsWhitespace('3');
    assert Strip("1") == "1" && Strip("2") == "2" && Strip("3") == "3";
  }

  lemma TSegments()
    ensures "t3,t2,t1" == "t3" + "," + "t2" + "," + "t1"
    ensures "t1,t2,t3" == "t1" + "," + "t2" + "," + "t3"
    ensures ',' !in "t1" && ',' !in "t2" && ',' !in "t3"
  {
  }

  lemma TPieces()
    ensures Pieces("t3,t2,t1") == ["t3", "t2", "t1"]
    ensures Pieces("t1,t2,t3") == ["t1", "t2", "t3"]
  {
    StripT();
    TSegments();
    PiecesOf("t3", "t2", "t1");
    PiecesOf("t1", "t2", "t3");
  }

  lemma TSorted()
    ensures ValidTags(["t1", "t2", "t3"], 4, 16)
    ensures Elems(["t3", "t2", "t1"]) == Elems(["t1", "t2", "t3"])
    ensures Elems(["t2", "t1", "t3"]) == Elems(["t1", "t2", "t3"])
  {
    assert Less("t1", "t2") && Less("t2", "t3") && Less("t1", "t3");
  }

  /** `"t3,t2,t1"` parses to t1, t2, t3 in that order, as `"t1,t2,t3"` does. */
  lemma SortedOrder()
    ensures Parse("t3,t2,t1", 4, 16) == Ok(["t1", "t2", "t3"])
    ensures Parse("t1,t2,t3", 4, 16) == Ok(["t1", "t2", "t3"])
  {
    TPieces();
    TSorted();
    AddAllSorted(["t3", "t2", "t1"], ["t1", "t2", "t3"], 4, 16);
    AddAllSorted(["t1", "t2", "t3"], ["t1", "t2", "t3"], 4, 16);
  }

  /** With two slots, a third distinct tag fails with `TooManyTags{3, 2}`. */
  lemma TooManyTagsExample()
    ensures AddAll([], ["t1", "t2", "t3"], 2, 16) == Err(TooManyTags(3, 2))
  {
    Distinct();
    var s := ["t1", "t2", "t3"];
    assert s[..2] == ["t1", "t2"];
    assert s[..2][..1] == ["t1"];
    assert s[..2][..1][..0] == [];
    assert Less("t1", "t2");
    assert !Less("t2", "t1");
    assert AddAll([], ["t1"], 2, 16) == Ok(["t1"]);
    assert "t2" !in ["t1"];
    assert InsertSorted(["t1"], "t2") == ["t1", "t2"];
    assert AddAll([], ["t1", "t2"], 2, 16) == Ok(["t1", "t2"]);
    assert "t3" !in ["t1", "t2"];
  }

  /** The common tags of {t1, t2, t3} and {t2, t3, t4} are t2 and t3. */
  lemma CommonTagsExample()
    ensures Intersect(["t1", "t2", "t3"], ["t2", "t3", "t4"]) == ["t2", "t3"]
  {
    Distinct();
    var s, t := ["t1", "t2", "t3"], ["t2", "t3", "t4"];
    assert s[..2] == ["t1", "t2"];
    assert s[..2][..1] == ["t1"];
    assert s[..2][..1][..0] == [];
    assert "t1" !in t;
    assert "t2" in t && "t3" in t;
    assert Intersect(["t1"], t) == [];
    assert Intersect(["t1", "t2"], t) == ["t2"];
  }

  /** `"hello world"` is too long for five characters; `"apple"` sorts before `"banana"`; `"αβγ"` is three characters. */
  lemma SmallStringExamples()
    ensures FromStr("hello world", 5) == Err(TooLong(11, 5))
    ensures Less("apple", "banana") && !Less("banana", "apple")
    ensures FromStr("αβγ", 16) == Ok("αβγ") && |"αβγ"| == 3
  {
    LessAsymmetric("apple", "banana");
  }

  /** The tags of `"t1,t2,t3"` include t1, t2 and t3 but not t4. */
  lemma HasTagExample()
    ensures Parse("t1,t2,t3", 4, 16).Ok?
    ensures var ts := Parse("t1,t2,t3", 4, 16).value;
            "t1" in ts && "t2" in ts && "t3" in ts && "t4" !in ts
  {
    SortedOrder();
    Distinct();
  }

  /** Adding t2, t1 and t3 to an empty set leaves them in the order t1, t2, t3. */
  lemma AddTagExample()
    ensures AddAll([], ["t2", "t1", "t3"], 4, 16) == Ok(["t1", "t2", "t3"])
  {
    TSorted();
    AddAllSorted(["t2", "t1", "t3"], ["t1", "t2", "t3"], 4, 16);
  }

  /** Removing t2 from t1, t2, t3 leaves t1 and t3. */
  lemma RemoveTagExample()
    ensures Without(["t1", "t2", "t3"], "t2") == ["t1", "t3"]
  {
    Distinct();
    var s := ["t1", "t2", "t3"];
    assert s[1..] == ["t2", "t3"];
    assert s[1..][1..] == ["t3"];
    assert Without(["t3"], "t2") == ["t3"];
  }
}
