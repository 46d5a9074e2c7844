/**
 * The tags an image is pushed under (class ImageBuilder): every tag in `[""]` followed
 * by the additional tags, each paired with the stamps "latest" and the build date.
 */
module ImageTags {
  import opened Outcomes

  /** The stamp every tag is also pushed with. */
  const Latest: string := "latest"

  /** A tag with a stamp: the bare stamp for the empty tag, otherwise `tag-stamp`. */
  function FullTag(tag: string, stamp: string): string {
    if |tag| > 0 then tag + "-" + stamp else stamp
  }

  /** The tags produced for each tag of `tags`, taken in order, and each of the two stamps. */
  function TagsOf(tags: seq<string>, tagDate: string): set<string> {
    if tags == [] then {}
    else TagsOf(tags[..|tags| - 1], tagDate) + {FullTag(tags[|tags| - 1], Latest), FullTag(tags[|tags| - 1], tagDate)}
  }

  /** The tag set, membership by membership: some tag of the list with one of the two stamps. */
  lemma {:induction false} TagsOfMembers(tags: seq<string>, tagDate: string, x: string)
    ensures x in TagsOf(tags, tagDate) <==>
              exists t :: t in tags && (x == FullTag(t, Latest) || x == FullTag(t, tagDate))
    decreases |tags|
  {
    if tags != [] {
      var init, last := tags[..|tags| - 1], tags[|tags| - 1];
      assert tags == init + [last];
      TagsOfMembers(init, tagDate, x);
      if x in TagsOf(tags, tagDate) {
        if x !in TagsOf(init, tagDate) {
          assert last in tags && (x == FullTag(last, Latest) || x == FullTag(last, tagDate));
        }
      } else {
        forall t | t in tags
          ensures x != FullTag(t, Latest) && x != FullTag(t, tagDate)
        {
          if t != last {
            assert t in init;
          }
        }
      }
    }
  }

  /** With no additional tags only the two bare stamps are produced. */
  lemma NoAdditionalTags(tagDate: string)
    ensures TagsOf([""], tagDate) == {Latest, tagDate}
  {
    assert [""][..0] == [];
  }

  /** Every non-empty additional tag is pushed with both stamps. */
  lemma AdditionalTagPushed(additional: seq<string>, tagDate: string, t: string)
    requires t in additional && |t| > 0
    ensures t + "-" + Latest in TagsOf([""] + additional, tagDate)
    ensures t + "-" + tagDate in TagsOf([""] + additional, tagDate)
  {
    assert t in [""] + additional;
    TagsOfMembers([""] + additional, tagDate, t + "-" + Latest);
    TagsOfMembers([""] + additional, tagDate, t + "-" + tagDate);
  }

  /**
   * Nothing else is produced: every tag is a bare stamp or a non-empty additional tag,
   * a dash and a stamp.
   */
  lemma OnlyStampedTags(additional: seq<string>, tagDate: string, x: string)
    requires x in TagsOf([""] + additional, tagDate)
    ensures x == Latest || x == tagDate ||
            exists t :: t in additional && |t| > 0 && (x == t + "-" + Latest || x == t + "-" + tagDate)
  {
    TagsOfMembers([""] + additional, tagDate, x);
    var t :| t in [""] + additional && (x == FullTag(t, Latest) || x == FullTag(t, tagDate));
    if |t| > 0 {
      assert t in additional;
    }
  }

  /** Empty additional tags add nothing beyond the two bare stamps. */
  lemma EmptyTagsAddNothing(additional: seq<string>, tagDate: string)
    requires forall i :: 0 <= i < |additional| ==> additional[i] == ""
    ensures TagsOf([""] + additional, tagDate) == {Latest, tagDate}
  {
    forall x | x in TagsOf([""] + additional, tagDate)
      ensures x == Latest || x == tagDate
    {
      OnlyStampedTags(additional, tagDate, x);
    }
    NoAdditionalTags(tagDate);
    TagsOfMembers([""] + additional, tagDate, Latest);
    TagsOfMembers([""] + additional, tagDate, tagDate);
    assert "" in [""] + additional;
  }

  /** Being a set, the result has at most two tags per entry of the list. */
  lemma {:induction false} TagCount(tags: seq<string>, tagDate: string)
    ensures |TagsOf(tags, tagDate)| <= 2 * |tags|
    decreases |tags|
  {
    if tags != [] {
      var init, last := tags[..|tags| - 1], tags[|tags| - 1];
      TagCount(init, tagDate);
      var pair := {FullTag(last, Latest), FullTag(last, tagDate)};
      assert |pair| <= 2;
      assert |TagsOf(init, tagDate) + pair| <= |TagsOf(init, tagDate)| + |pair|;
    }
  }

  /** The builder as far as its tags go. */
  class ImageBuilder {
    var additionalTags: seq<string>
    var tags: set<string>

    /** `None` additional tags mean none; the tags are computed for the given build date. */
    constructor (additional: Option<seq<string>>, tagDate: string)
      ensures additionalTags == (if additional.None? then [] else additional.value)
      ensures tags == TagsOf([""] + additionalTags, tagDate)
    {
      if additional.None? {
        additionalTags := [];
      } else {
        additionalTags := additional.value;
      }
      new;
      tags := GetTags(tagDate);
    }

    /** get_tags: the empty tag and each additional tag, each with "latest" and the date. */
    method GetTags(tagDate: string) returns (newTags: set<string>)
      ensures newTags == TagsOf([""] + additionalTags, tagDate)
    {
      newTags := {};
      var all := [""] + additionalTags;
      var stamps := [Latest, tagDate];
      var i := 0;
      while i < |all|
        invariant 0 <= i <= |all|
        invariant newTags == TagsOf(all[..i], tagDate)
      {
        var tag := all[i];
        var before := newTags;
        var j := 0;
        while j < |stamps|
          invariant 0 <= j <= |stamps|
          invariant j == 0 ==> newTags == before
          invariant j == 1 ==> newTags == before + {FullTag(tag, Latest)}
          invariant j == 2 ==> newTags == before + {FullTag(tag, Latest), FullTag(tag, tagDate)}
        {
          var stamp := stamps[j];
          var fullTag := stamp;
          if |tag| > 0 {
            fullTag := tag + "-" + stamp;
          }
          newTags := newTags + {fullTag};
          j := j + 1;
        }
        assert all[..i + 1][..i] == all[..i];
        i := i + 1;
      }
      assert all[..|all|] == all;
    }
  }
}
