# TagSet: a fixed-capacity sorted set of short tags

This project models `TagSet<MAX_TAGS, MAX_TAG_LEN>` from the tensor4all-rs
crate `tensor4all-core`. A tag set labels a tensor-network index with a few
short strings, without heap allocation. It is a fixed array of `MAX_TAGS`
slots plus a count `length`. The first `length` slots hold the tags in
strictly ascending order, so no tag appears twice. Each tag holds at most
`MAX_TAG_LEN` characters.

The project has five modules:

- `SmallString` (smallstring.dfy) is the element type `SmallString<N>`: a
  string of at most `N` characters. It defines the conversion that fails with
  `TooLong{actual, max}` and the lexicographic order, proved to be a strict
  total order.
- `TagList` (taglist.dfy) is the abstract value `tags[0..length)` as a plain
  sequence. It states the representation invariant (`ValidTags`). It defines
  what each operation does to the value: `AddOrdered` for `_add_tag_ordered`,
  `Add` for `add_tag`, `Without` for `remove_tag`, `Intersect` for
  `common_tags`, and `AddAll` for a run of additions. Lemmas prove what those
  operations promise.
- `TagParse` (tagparse.dfy) is the text form used by `from_str`. It splits on
  commas, removes every whitespace character and skips empty pieces. `Parse`
  is the resulting value, with lemmas about when it succeeds and what it holds.
- `TagSets` (tagset.dfy) is the class `TagSet`. It has the array `tags`, the
  field `length`, and the constants `maxTags` and `maxTagLen` (the const
  generics). Each method is written as the source writes it, with its
  binary-search, shift and parse loops. Each is proved against the matching
  `TagList` or `TagParse` function of `Contents()`. Every mutator keeps
  `Valid()`.
- `TagExamples` (examples.dfy) restates the repository's tests on the model:
  sorted order, whitespace removal, the capacity error, removal and the
  intersection.

The error type `TagSetError` (crates/tensor4all-core/src/tagset.rs:15-19) is
the datatype `TagList.TagSetError` with the same three variants:
`TooManyTags(actual, max)`, `TagTooLong(actual, max)` and
`InvalidTag(SmallStringError)`.

The order is a predicate `Less` of its own, because Dafny's `<` on sequences
means "proper prefix". Characters compare by code point, which is also the
byte order of their UTF-8 encodings. A proper prefix sorts first.

## Model

| member | source | states |
|---|---|---|
| SmallString.Less | crates/tensor4all-core/src/tagset.rs:161-163 | the order of `SmallString` that binary search relies on: lexicographic by code point, a proper prefix first; its properties are the four lemmas below |
| SmallString.FromStr | crates/tensor4all-core/tests/tagset.rs:20-30 | conversion succeeds exactly when the character count is at most `N` and keeps the string; otherwise the error is `TooLong(actual = length, max = N)` with actual > max |
| SmallString.LessIrreflexive | crates/tensor4all-core/src/tagset.rs:161-163 | no tag sorts before itself |
| SmallString.LessAsymmetric | crates/tensor4all-core/tests/tagset.rs:42-49 | if `a < b` then not `b < a` |
| SmallString.LessTransitive | crates/tensor4all-core/src/tagset.rs:161-163 | the order is transitive, which is what lets binary search discard half the slice |
| SmallString.LessTrichotomy | crates/tensor4all-core/src/tagset.rs:161-163 | any two tags are equal or ordered one way; the order is total |
| TagList.AscendingDistinct | crates/tensor4all-core/src/tagset.rs:8-11 | in a strictly ascending list two equal entries are the same slot: no duplicates |
| TagList.AscendingUnique | crates/tensor4all-core/src/tagset.rs:3-6 | two strictly ascending lists holding the same tags are equal, so the stored order never depends on insertion order |
| TagList.AscendingCard | crates/tensor4all-core/src/tagset.rs:8-11 | the count of a strictly ascending list equals its number of distinct tags |
| TagList.InsertSorted | crates/tensor4all-core/src/tagset.rs:160-171 | the list with the tag placed before the first larger entry; `InsertSortedProps` and `InsertSortedAt` state its meaning |
| TagList.InsertSortedProps | crates/tensor4all-core/src/tagset.rs:160-172 | inserting a new tag in sorted position grows the list by one, adds exactly that tag and keeps it strictly ascending |
| TagList.InsertSortedAt | crates/tensor4all-core/src/tagset.rs:160-171 | placing the tag at the index binary search reports (all before it smaller, all after it larger) is the sorted insertion |
| TagList.AddOrdered | crates/tensor4all-core/src/tagset.rs:146-175 | a present tag gives `Ok` with the list unchanged, even on a full set; a new tag on a full set gives `TooManyTags(length + 1, MAX_TAGS)`; otherwise the list grows by one, stays strictly ascending and holds the old tags plus the new one |
| TagList.Add | crates/tensor4all-core/src/tagset.rs:108-112 | a string longer than `MAX_TAG_LEN` gives `InvalidTag(TooLong(len, MAX_TAG_LEN))`; otherwise the result is that of `_add_tag_ordered`; success keeps the invariant |
| TagList.AddElems | crates/tensor4all-core/src/tagset.rs:108-175 | one addition succeeds exactly when the tag fits and the distinct tags, old plus new, stay within capacity; the tags are then the old ones plus the new one |
| TagList.AddIdempotent | crates/tensor4all-core/src/tagset.rs:148-150 | adding the same tag twice gives the same result as adding it once, whether the first addition succeeds or fails (a failure leaves the set unchanged) |
| TagList.AddTwo | crates/tensor4all-core/src/tagset.rs:108-175 | two additions that fit within capacity both succeed and hold the old tags plus both new ones |
| TagList.AddCommutes | crates/tensor4all-core/tests/tagset.rs:108-119 | when both tags fit and the capacity holds the old tags plus both new ones, both additions succeed in either order and the two orders give the same set (with less room, one order's second addition can fail where the other's does not) |
| TagList.AddAll | crates/tensor4all-core/src/tagset.rs:39-58 | a run of `add_tag` calls that stops at the first error; success keeps the invariant |
| TagList.AddAllOk | crates/tensor4all-core/src/tagset.rs:34-62 | a run succeeds exactly when every tag fits and the distinct tags, old and new, do not exceed the capacity; it then holds exactly those tags |
| TagList.AddAllPrefixErr | crates/tensor4all-core/src/tagset.rs:44 | once a run has failed, later tags change nothing: the first error is the result |
| TagList.AddAllConcat | crates/tensor4all-core/src/tagset.rs:39-51 | a run over `ps + qs` that gets through `ps` continues from the set `ps` produced |
| TagList.AddAllSorted | crates/tensor4all-core/src/tagset.rs:3-6 | adding the tags of a sorted valid list, in any order and with repeats, to an empty set gives exactly that sorted list |
| TagList.SameTagsEqual | crates/tensor4all-core/src/tagset.rs:189-196 | two strictly ascending lists are equal exactly when they hold the same tags |
| TagList.Without | crates/tensor4all-core/src/tagset.rs:115-131 | the list with every copy of the tag dropped, the effect of `remove_tag`; `WithoutProps`, `WithoutAt` and `WithoutAbsent` state its meaning |
| TagList.WithoutAbsent | crates/tensor4all-core/src/tagset.rs:121-130 | removing a tag that is not present leaves the list as it was |
| TagList.WithoutAt | crates/tensor4all-core/src/tagset.rs:121-126 | shifting the later tags left over the found index is removal of that tag |
| TagList.WithoutValid | crates/tensor4all-core/src/tagset.rs:121-126 | the shifted-left list equals the removal and is again a valid tag list |
| TagList.WithoutProps | crates/tensor4all-core/src/tagset.rs:115-131 | removing a present tag shrinks the list by one, removes exactly that tag and keeps the rest strictly ascending |
| TagList.Intersect | crates/tensor4all-core/src/tagset.rs:134-143 | the entries of the first list that the second holds, in order; `IntersectProps` states its meaning |
| TagList.IntersectProps | crates/tensor4all-core/src/tagset.rs:134-143 | the intersection holds exactly the tags in both sets, is strictly ascending and no longer than the first set |
| TagList.IntersectStep | crates/tensor4all-core/src/tagset.rs:136-141 | in ascending order each shared tag is appended by `_add_tag_ordered` without the capacity error; an unshared tag changes nothing |
| TagParse.IsWhitespace | crates/tensor4all-core/src/tagset.rs:42 | `char::is_whitespace`: the code points with the Unicode White_Space property |
| TagParse.Strip | crates/tensor4all-core/src/tagset.rs:42 | the filter that drops every whitespace character of a segment, keeping the rest in order; `StripChars`, `StripOne` and `StripConcat` state its meaning |
| TagParse.StripChars | crates/tensor4all-core/src/tagset.rs:42 | the stripped text contains a character exactly when the input contains it and it is not whitespace; it is never longer than the input |
| TagParse.StripOne | crates/tensor4all-core/src/tagset.rs:42 | one character is kept exactly when it is not whitespace |
| TagParse.StripConcat | crates/tensor4all-core/src/tagset.rs:42 | stripping distributes over concatenation; with `StripOne` this makes it the order-keeping filter of the non-whitespace characters |
| TagParse.Split | crates/tensor4all-core/src/tagset.rs:39-51 | the segments the character loop collects between commas, never none; `SplitJoin`, `JoinSplit` and `SplitAfterComma` state its meaning |
| TagParse.SplitJoin | crates/tensor4all-core/src/tagset.rs:39-51 | the comma-separated segments hold no comma and join back, with commas, to the input |
| TagParse.JoinSplit | crates/tensor4all-core/src/tagset.rs:39-51 | joining comma-free segments with commas and splitting again gives the segments back |
| TagParse.SplitNoComma | crates/tensor4all-core/src/tagset.rs:39-51 | text without a comma is one segment |
| TagParse.SplitAfterComma | crates/tensor4all-core/src/tagset.rs:40-47 | after a comma the segments start afresh: those of the text after it follow those of the text before it |
| TagParse.NonEmptyStripped | crates/tensor4all-core/src/tagset.rs:41-45 | the stripped segments, in order, with those that are empty (or empty after stripping) skipped |
| TagParse.Pieces | crates/tensor4all-core/src/tagset.rs:39-58 | the candidate tags of a text: its comma segments stripped, empty ones skipped, the last segment included |
| TagParse.NonEmptyStrippedClean | crates/tensor4all-core/src/tagset.rs:41-45 | every candidate tag is non-empty and contains no whitespace |
| TagParse.NonEmptyStrippedConcat | crates/tensor4all-core/src/tagset.rs:39-58 | the candidate tags of consecutive segments are those of each part in order |
| TagParse.Parse | crates/tensor4all-core/src/tagset.rs:34-62 | a successful parse is a valid tag list |
| TagParse.ParseOk | crates/tensor4all-core/src/tagset.rs:34-62 | parsing succeeds exactly when every piece fits and the distinct pieces fit the capacity; the set then holds exactly the whitespace-free non-empty pieces |
| TagParse.ParseOrderIndependent | crates/tensor4all-core/src/tagset.rs:30-33 | texts with the same pieces either both fail or both parse to the same list; when both fail, the errors can differ, because the first error in input order is returned |
| TagSets.TagSet.Valid | crates/tensor4all-core/src/tagset.rs:8-11 | the representation invariant: `MAX_TAGS` slots, `length` at most that, and the first `length` slots strictly ascending tags of at most `MAX_TAG_LEN` characters |
| TagSets.TagSet.Contents | crates/tensor4all-core/src/tagset.rs:8-11 | the abstract value: the first `length` slots; later slots are never read |
| TagSets.TagSet.constructor | crates/tensor4all-core/src/tagset.rs:23-28 | a new set is valid and empty, with fresh slots |
| TagSets.TagSet.Len | crates/tensor4all-core/src/tagset.rs:65-67 | the number of tags, never more than the capacity |
| TagSets.TagSet.Capacity | crates/tensor4all-core/src/tagset.rs:70-72 | `MAX_TAGS`, the number of slots, which bounds the number of tags |
| TagSets.TagSet.Get | crates/tensor4all-core/src/tagset.rs:75-81 | `Some` exactly when the index is below `length`, holding the tag at that index |
| TagSets.TagSet.Iter | crates/tensor4all-core/src/tagset.rs:84-86 | the tags in strictly ascending order, each fitting `MAX_TAG_LEN` |
| TagSets.TagSet.Search | crates/tensor4all-core/src/tagset.rs:161-163 | binary search: all tags before the returned index are smaller; if found, the tag is there; if not, all tags from the index on are larger |
| TagSets.TagSet.Contains | crates/tensor4all-core/src/tagset.rs:178-180 | true exactly when the tag is among the first `length` slots |
| TagSets.TagSet.HasTag | crates/tensor4all-core/src/tagset.rs:89-95 | true exactly when the string fits `MAX_TAG_LEN` and is a tag of the set |
| TagSets.TagSet.HasTags | crates/tensor4all-core/src/tagset.rs:98-105 | true exactly when every tag of the other set is a tag of this one, so true for an empty other set |
| TagSets.TagSet.AddTagOrdered | crates/tensor4all-core/src/tagset.rs:146-175 | result and new contents are those of `AddOrdered` on the old contents; the invariant holds; when nothing is added the array is untouched |
| TagSets.TagSet.ShiftRight | crates/tensor4all-core/src/tagset.rs:166-168 | the tags from the insertion index move one slot right and those before it stay |
| TagSets.TagSet.AddTag | crates/tensor4all-core/src/tagset.rs:108-112 | result and new contents are those of `Add` on the old contents; the invariant holds; on every error the set is unchanged |
| TagSets.TagSet.RemoveTag | crates/tensor4all-core/src/tagset.rs:115-131 | true exactly when the string fits and is present; the contents then lose exactly that tag, otherwise nothing changes; the invariant holds |
| TagSets.TagSet.ShiftLeft | crates/tensor4all-core/src/tagset.rs:123-125 | the tags after the removed index move one slot left and those before it stay |
| TagSets.TagSet.CommonTags | crates/tensor4all-core/src/tagset.rs:134-143 | a fresh valid set with the same bounds whose contents are the sorted intersection |
| TagSets.TagSet.Equals | crates/tensor4all-core/src/tagset.rs:189-196 | true exactly when both sets hold the same tags |
| TagSets.TagSet.FromStr | crates/tensor4all-core/src/tagset.rs:34-62 | on success a fresh valid set whose contents are `Parse` of the text; on failure the error `Parse` reports, with no set returned |
| TagSets.TagSet.AddSegment | crates/tensor4all-core/src/tagset.rs:41-47 | a collected segment is stripped of whitespace and added unless empty; result and contents follow `AddAll` of its candidate tag |
| TagSets.SplitPrefixStep | crates/tensor4all-core/src/tagset.rs:39-50 | reading a comma closes the current segment; any other character extends it |
| TagSets.StepAddAll | crates/tensor4all-core/src/tagset.rs:41-46 | adding a closed segment continues the run of additions over the segments read so far |
| TagSets.ParseAbortsAt | crates/tensor4all-core/src/tagset.rs:44 | an error at a comma is the error of the whole parse: `?` returns early |
| TagExamples.SmallStringExamples | crates/tensor4all-core/tests/tagset.rs:20-56 | `"hello world"` is too long for 5 (`TooLong(11, 5)`); `"apple"` sorts before `"banana"`; `"αβγ"` has 3 characters |
| TagExamples.WhitespaceIgnored | crates/tensor4all-core/tests/tagset.rs:88-97 | `" aaa , bb bb  , ccc    "` gives the pieces `aaa`, `bbbb`, `ccc` and parses to a set of exactly those three tags |
| TagExamples.SortedOrder | crates/tensor4all-core/tests/tagset.rs:65-86 | `"t3,t2,t1"` and `"t1,t2,t3"` both parse to `t1, t2, t3` |
| TagExamples.HasTagExample | crates/tensor4all-core/tests/tagset.rs:99-106 | the set parsed from `"t1,t2,t3"` holds `t1`, `t2`, `t3` and not `t4` |
| TagExamples.AddTagExample | crates/tensor4all-core/tests/tagset.rs:108-119 | adding `t2`, `t1`, `t3` to an empty set gives `t1, t2, t3` |
| TagExamples.RemoveTagExample | crates/tensor4all-core/tests/tagset.rs:121-131 | removing `t2` from `t1, t2, t3` leaves `t1, t3` |
| TagExamples.CommonTagsExample | crates/tensor4all-core/tests/tagset.rs:133-144 | the common tags of `{t1, t2, t3}` and `{t2, t3, t4}` are `t2, t3` |
| TagExamples.TooManyTagsExample | crates/tensor4all-core/tests/tagset.rs:146-161 | with two slots, adding `t1`, `t2`, `t3` fails with `TooManyTags(3, 2)` |

## Left out

- crates/tensor4all-core/src/smallstring.rs is not part of this model. `SmallString<N>` is a `string` (a sequence of Unicode scalar values) of at most `N` characters. That `N` counts characters rather than UTF-8 bytes is an assumption. Its byte buffer, UTF-8 encoding and `as_str` are not modelled.
- The order of `SmallString` is taken to be lexicographic by code point, as for Rust's `str`, and equality to be structural. crates/tensor4all-core/src/smallstring.rs is outside this model, so this is an assumption.
- `char::is_whitespace` is written out as the list of Unicode White_Space code points (`TagParse.IsWhitespace`), because every function here needs a body.
- `TagSetError::TagTooLong` is declared but no code path produces it. The model declares it and never produces it either.
- `usize` widths: `length` and the `actual` field of `TooManyTags` are unbounded naturals. `length` never exceeds `MAX_TAGS`, so `length + 1` and `length - 1` cannot wrap in the source.
- `iter` returns a Rust iterator; the model returns the sequence of tags it yields. `get` returns a reference; the model returns the value.
- Rust's `binary_search` may probe in a different order from `TagSets.TagSet.Search`. Only its result is modelled. In a strictly ascending slice that result is unique.
- The derives `Debug`, `Clone` and `Copy`, the `Default` impl (which is `new`), the `Eq` marker, and the aliases `Tag` and `DefaultTagSet` (`TagSet<4, 16>`, used in the examples as the bounds 4 and 16) are not modelled separately.
- `common_tags` discards the result of `_add_tag_ordered` with `.ok()`. The model also ignores it and proves it is always `Ok`.
- crates/tensor4all-linalg/src/svd.rs and crates/tensor4all-linalg/src/qr.rs are not modelled. They are floating-point decompositions in a backend not shown. Their only use of a tag set is adding `"Link"` to a new one.
- tensor4all-capi/src/types.rs is an FFI handle wrapper with `unsafe` ownership transfer. crates/tensor4all-linalg/src/lib.rs holds only module declarations. Neither is modelled.
