/**
 * `TagSet<MAX_TAGS, MAX_TAG_LEN>`: a fixed array of `maxTags` slots and a
 * count `length`; the slots `tags[0..length)` are the tags, strictly ascending.
 * Each method is proved against the function of module TagList or TagParse
 * that says what it does to the abstract value `Contents()`.
 */
module TagSets {
  import opened Wrappers
  import opened SmallString
  import opened TagList
  import opened TagParse

  class TagSet {
    /** `MAX_TAGS`: the number of slots. */
    const maxTags: nat
    /** `MAX_TAG_LEN`: the largest number of characters in a tag. */
    const maxTagLen: nat
    /** The slots; those at `length` and beyond are stale and never read. */
    const tags: array<string>
    /** The number of tags. */
    var length: nat

    /** The representation invariant: the first `length` slots hold a valid tag list. */
    ghost predicate Valid()
      reads this, tags
    {
      tags.Length == maxTags && length <= tags.Length
      && ValidTags(tags[..length], maxTags, maxTagLen)
    }

    /** The abstract value: the tags in ascending order. */
    ghost function Contents(): seq<string>
      reads this, tags
      requires Valid()
    {
      tags[..length]
    }

    /** `TagSet::new`: an empty set whose slots all hold the empty string. */
    constructor (maxTags: nat, maxTagLen: nat)
      ensures Valid() && fresh(tags)
      ensures this.maxTags == maxTags && this.maxTagLen == maxTagLen
      ensures Contents() == []
    {
      this.maxTags := maxTags;
      this.maxTagLen := maxTagLen;
      tags := new string[maxTags](_ => []);
      length := 0;
    }

    /** `len`: the number of tags. */
    function Len(): (n: nat)
      reads this, tags
      requires Valid()
      ensures n == |Contents()| && n <= Capacity()
    {
      length
    }

    /** `capacity`: `MAX_TAGS`, which bounds the number of tags. */
    function Capacity(): (n: nat)
      reads this, tags
      requires Valid()
      ensures |Contents()| <= n && n == tags.Length
    {
      maxTags
    }

    /** `get`: the tag at `index`, or nothing past the last tag. */
    function Get(index: nat): (r: Option<string>)
      reads this, tags
      requires Valid()
      ensures r.Some? <==> index < |Contents()|
      ensures r.Some? ==> r.value == Contents()[index] && |r.value| <= maxTagLen
    {
      if index < length then Some(tags[index]) else None
    }

    /** `iter`: the tags, in strictly ascending order, the same on every call. */
    function Iter(): (r: seq<string>)
      reads this, tags
      requires Valid()
      ensures r == Contents() && StrictlyAscending(r)
      ensures forall i | 0 <= i < |r| :: |r[i]| <= maxTagLen
    {
      tags[..length]
    }

    /**
     * `tags[..length].binary_search(key)`: whether `key` is present, and its
     * index if so, or else the index where it would be inserted.
     */
    method Search(key: string) returns (found: bool, pos: nat)
      requires Valid()
      ensures pos <= |Contents()|
      ensures forall i | 0 <= i < pos :: Less(Contents()[i], key)
      ensures found ==> pos < |Contents()| && Contents()[pos] == key
      ensures !found ==> forall i | pos <= i < |Contents()| :: Less(key, Contents()[i])
    {
      var lo, hi := 0, length;
      ghost var s := tags[..length];
      while lo < hi
        invariant 0 <= lo <= hi <= length
        invariant forall i | 0 <= i < lo :: Less(s[i], key)
        invariant forall i | hi <= i < length :: Less(key, s[i])
      {
        var mid := (lo + hi) / 2;
        assert tags[mid] == s[mid];
        if tags[mid] == key {
          return true, mid;
        }
        LessTrichotomy(tags[mid], key);
        if Less(tags[mid], key) {
          forall i | 0 <= i < mid ensures Less(s[i], key) {
            LessTransitive(s[i], s[mid], key);
          }
          lo := mid + 1;
        } else {
          forall i | mid < i < length ensures Less(key, s[i]) {
            LessTransitive(key, s[mid], s[i]);
          }
          hi := mid;
        }
      }
      return false, lo;
    }

    /** `_has_tag`: membership by binary search. */
    method Contains(tag: string) returns (b: bool)
      requires Valid()
      ensures b <==> tag in Contents()
    {
      var found, pos := Search(tag);
      b := found;
      LessIrreflexive(tag);
    }

    /** `has_tag`: false for a string too long to be a tag, else membership. */
    method HasTag(tag: string) returns (b: bool)
      requires Valid()
      ensures b <==> |tag| <= maxTagLen && tag in Contents()
    {
      match SmallString.FromStr(tag, maxTagLen)
      case Err(_) =>
        b := false;
      case Ok(t) =>
        b := Contains(t);
    }

    /** `has_tags`: every tag of `other` is a tag of this set. */
    method HasTags(other: TagSet) returns (b: bool)
      requires Valid() && other.Valid()
      ensures b <==> forall t | t in other.Contents() :: t in Contents()
    {
      var i := 0;
      while i < other.length
        invariant 0 <= i <= other.length
        invariant forall j | 0 <= j < i :: other.tags[j] in Contents()
      {
        var present := Contains(other.tags[i]);
        if !present {
          assert other.tags[i] in other.Contents();
          return false;
        }
        i := i + 1;
      }
      return true;
    }

    /**
     * `_add_tag_ordered`: a tag already present is a successful no-op, a new
     * tag on a full set fails with nothing written, otherwise the later tags
     * shift one slot right and the tag goes into the gap.
     */
    method AddTagOrdered(tag: string) returns (r: Result<(), TagSetError>)
      requires Valid() && |tag| <= maxTagLen
      modifies this, tags
      ensures Valid()
      ensures r == Status(AddOrdered(old(Contents()), tag, maxTags))
      ensures Contents() == After(old(Contents()), AddOrdered(old(Contents()), tag, maxTags))
      ensures length == old(length) ==> unchanged(tags)
    {
      var present := Contains(tag);
      if present {
        return Ok(());
      }
      if length >= maxTags {
        return Err(TooManyTags(length + 1, maxTags));
      }
      var found, pos := Search(tag);
      ghost var s := tags[..length];
      ShiftRight(pos);
      tags[pos] := tag;
      length := length + 1;
      assert tags[..length] == tags[..pos] + [tag] + tags[pos + 1..length];
      assert tags[..length] == s[..pos] + [tag] + s[pos..];
      assert AddOrdered(s, tag, maxTags) == Ok(tags[..length]) by {
        InsertSortedAt(s, tag, pos);
      }
      assert AllFit(tags[..length], maxTagLen) by {
        AllFitByMembers(s, tags[..length], tag, maxTagLen);
      }
      r := Ok(());
    }

    /**
     * The shift loop of `_add_tag_ordered`: the tags from `pos` on move one
     * slot right, leaving slot `pos` free for the new tag.
     */
    method ShiftRight(pos: nat)
      requires pos <= length < tags.Length
      modifies tags
      ensures tags[..pos] == old(tags[..pos])
      ensures tags[pos + 1..length + 1] == old(tags[pos..length])
    {
      ghost var s := tags[..length];
      var i := length;
      while i > pos
        invariant pos <= i <= length
        invariant forall k | 0 <= k < i :: tags[k] == s[k]
        invariant forall k | i < k <= length :: tags[k] == s[k - 1]
      {
        i := i - 1;
        tags[i + 1] := tags[i];
      }
    }

    /** `add_tag`: reject a string too long to be a tag, else `_add_tag_ordered`. */
    method AddTag(tag: string) returns (r: Result<(), TagSetError>)
      requires Valid()
      modifies this, tags
      ensures Valid()
      ensures r == Status(Add(old(Contents()), tag, maxTags, maxTagLen))
      ensures Contents() == After(old(Contents()), Add(old(Contents()), tag, maxTags, maxTagLen))
      ensures length == old(length) ==> unchanged(tags)
    {
      match SmallString.FromStr(tag, maxTagLen)
      case Err(e) =>
        r := Err(InvalidTag(e));
      case Ok(t) =>
        r := AddTagOrdered(t);
    }

    /**
     * `remove_tag`: find the tag by linear search and shift the later tags one
     * slot left; a string that is too long or absent changes nothing.
     */
    method RemoveTag(tag: string) returns (removed: bool)
      requires Valid()
      modifies this, tags
      ensures Valid()
      ensures removed <==> |tag| <= maxTagLen && tag in old(Contents())
      ensures Contents() == if removed then Without(old(Contents()), tag) else old(Contents())
      ensures !removed ==> unchanged(tags) && length == old(length)
    {
      if SmallString.FromStr(tag, maxTagLen).Err? {
        return false;
      }
      var pos := 0;
      while pos < length && tags[pos] != tag
        invariant 0 <= pos <= length
        invariant forall k | 0 <= k < pos :: tags[k] != tag
      {
        pos := pos + 1;
      }
      if pos == length {
        return false;
      }
      ghost var s := tags[..length];
      ShiftLeft(pos);
      assert tags[..pos] == s[..pos] && tags[pos..length - 1] == s[pos + 1..];
      WithoutValid(s, pos, maxTags, maxTagLen);
      length := length - 1;
      assert tags[..length] == tags[..pos] + tags[pos..length];
      return true;
    }

    /**
     * The shift loop of `remove_tag`: every tag after `pos` moves one slot
     * left, overwriting the tag at `pos`; the count is left to the caller.
     */
    method ShiftLeft(pos: nat)
      requires pos < length <= tags.Length
      modifies tags
      ensures tags[..pos] == old(tags[..pos])
      ensures tags[pos..length - 1] == old(tags[pos + 1..length])
    {
      ghost var s := tags[..length];
      var i := pos;
      while i < length - 1
        invariant pos <= i <= length - 1
        invariant forall k | 0 <= k < pos :: tags[k] == s[k]
        invariant forall k | pos <= k < i :: tags[k] == s[k + 1]
        invariant forall k | i <= k < length :: tags[k] == s[k]
      {
        tags[i] := tags[i + 1];
        i := i + 1;
      }
    }

    /**
     * `common_tags`: a new set holding the tags of this set that `other` also
     * holds. Visiting the tags in ascending order, each addition appends, so
     * the capacity error never arises.
     */
    method CommonTags(other: TagSet) returns (result: TagSet)
      requires Valid() && other.Valid()
      ensures fresh(result) && fresh(result.tags)
      ensures result.Valid() && result.maxTags == maxTags && result.maxTagLen == maxTagLen
      ensures result.Contents() == Intersect(Contents(), other.Contents())
    {
      result := new TagSet(maxTags, maxTagLen);
      ghost var s, t := Contents(), other.Contents();
      var i := 0;
      while i < length
        invariant 0 <= i <= length
        invariant fresh(result) && fresh(result.tags)
        invariant result.Valid() && result.maxTags == maxTags && result.maxTagLen == maxTagLen
        invariant result.Contents() == Intersect(s[..i], t)
      {
        var tag := tags[i];
        assert tag == s[i];
        var shared := other.Contains(tag);
        IntersectStep(s, t, i, maxTags);
        if shared {
          var added := result.AddTagOrdered(tag);
        }
        i := i + 1;
      }
      assert s[..length] == s;
    }

    /**
     * `eq`: same count and same tags slot by slot; since both lists are
     * strictly ascending this is equality of the sets of tags.
     */
    function Equals(other: TagSet): (r: bool)
      reads this, tags, other, other.tags
      requires Valid() && other.Valid()
      ensures r <==> forall t :: t in Contents() <==> t in other.Contents()
    {
      SameTagsEqual(Contents(), other.Contents());
      length == other.length && tags[..length] == other.tags[..other.length]
    }

    /**
     * `from_str`: collect characters up to each comma and hand what was
     * collected to `AddSegment`; the last segment is handed over after the
     * loop. The first failed addition is the result.
     */
    static method FromStr(s: string, maxTags: nat, maxTagLen: nat) returns (r: Result<TagSet, TagSetError>)
      ensures r.Ok? ==> fresh(r.value) && fresh(r.value.tags) && r.value.Valid()
      ensures r.Ok? ==> r.value.maxTags == maxTags && r.value.maxTagLen == maxTagLen
      ensures r.Ok? ==> Parse(s, maxTags, maxTagLen) == Ok(r.value.Contents())
      ensures r.Err? ==> Parse(s, maxTags, maxTagLen) == Err(r.error)
    {
      var tagset := new TagSet(maxTags, maxTagLen);
      var current: string := [];
      ghost var closed: seq<string> := [];
      var k := 0;
      while k < |s|
        invariant 0 <= k <= |s|
        invariant fresh(tagset) && fresh(tagset.tags) && tagset.Valid()
        invariant tagset.maxTags == maxTags && tagset.maxTagLen == maxTagLen
        invariant Split(s[..k]) == closed + [current]
        invariant AddAll([], NonEmptyStripped(closed), maxTags, maxTagLen) == Ok(tagset.Contents())
      {
        var ch := s[k];
        SplitPrefixStep(s, k, closed, current);
        if ch == ',' {
          ghost var segs := closed + [current];
          var added := AddSegment(tagset, current);
          StepAddAll(closed, current, maxTags, maxTagLen);
          if added.Err? {
            ParseAbortsAt(s, k, segs, maxTags, maxTagLen);
            return Err(added.error);
          }
          current := [];
          closed := segs;
        } else {
          current := current + [ch];
        }
        k := k + 1;
      }
      assert s[..k] == s;
      var added := AddSegment(tagset, current);
      StepAddAll(closed, current, maxTags, maxTagLen);
      if added.Err? {
        return Err(added.error);
      }
      return Ok(tagset);
    }

    /**
     * The block `from_str` runs on each collected segment: strip its
     * whitespace and add the result unless it is empty.
     */
    static method AddSegment(tagset: TagSet, segment: string) returns (r: Result<(), TagSetError>)
      requires tagset.Valid()
      modifies tagset, tagset.tags
      ensures tagset.Valid()
      ensures r == Status(AddAll(old(tagset.Contents()), NonEmptyStripped([segment]), tagset.maxTags, tagset.maxTagLen))
      ensures tagset.Contents()
           == After(old(tagset.Contents()), AddAll(old(tagset.Contents()), NonEmptyStripped([segment]), tagset.maxTags, tagset.maxTagLen))
    {
      assert [segment][..0] == [];
      if segment != [] {
        var trimmed := Strip(segment);
        if trimmed != [] {
          assert [trimmed][..0] == [];
          r := tagset.AddTag(trimmed);
          return;
        }
      }
      r := Ok(());
    }
  }

  /** How the segments of `s[..k]` change when the character at `k` is read. */
  lemma SplitPrefixStep(s: string, k: nat, closed: seq<string>, current: string)
    requires k < |s| && Split(s[..k]) == closed + [current]
    ensures s[k] == ',' ==> Split(s[..k + 1]) == closed + [current] + [[]]
    ensures s[k] != ',' ==> Split(s[..k + 1]) == closed + [current + [s[k]]]
  {
    assert s[..k + 1] == s[..k] + [s[k]];
    SplitSnoc(s[..k], s[k]);
    assert (closed + [current])[..|closed|] == closed;
  }

  /** One more closed segment continues the run of additions with its piece. */
  lemma StepAddAll(closed: seq<string>, segment: string, maxTags: nat, maxTagLen: nat)
    requires AddAll([], NonEmptyStripped(closed), maxTags, maxTagLen).Ok?
    ensures AddAll([], NonEmptyStripped(closed + [segment]), maxTags, maxTagLen)
         == AddAll(AddAll([], NonEmptyStripped(closed), maxTags, maxTagLen).value, NonEmptyStripped([segment]), maxTags, maxTagLen)
  {
    NonEmptyStrippedConcat(closed, [segment]);
    AddAllConcat([], NonEmptyStripped(closed), NonEmptyStripped([segment]), maxTags, maxTagLen);
  }

  /**
   * When the segments up to the comma at `k` already make the additions
   * fail, parsing the whole text fails with the same error.
   */
  lemma ParseAbortsAt(s: string, k: nat, segs: seq<string>, maxTags: nat, maxTagLen: nat)
    requires k < |s| && s[k] == ','
    requires Split(s[..k]) == segs
    requires AddAll([], NonEmptyStripped(segs), maxTags, maxTagLen).Err?
    ensures Parse(s, maxTags, maxTagLen) == AddAll([], NonEmptyStripped(segs), maxTags, maxTagLen)
  {
    var x, y := s[..k], s[k + 1..];
    assert s == x + [','] + y;
    SplitAfterComma(x, y);
    NonEmptyStrippedConcat(segs, Split(y));
    AddAllPrefixErr([], NonEmptyStripped(segs), NonEmptyStripped(Split(y)), maxTags, maxTagLen);
  }
}
