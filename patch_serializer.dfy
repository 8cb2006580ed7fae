/** The computed fields of `PatchListSerializer` (`tags`) and
    `PatchDetailSerializer` (`headers`). */
module PatchSerializer {
  import opened Wrappers

  /** A project tag: its display name and the name of the per-patch count
      attribute that the tag-count query attaches to each patch. */
  datatype Tag = Tag(name: string, attrName: string)

  /** The patch's per-tag counts, by attribute name (what `getattr` reads). */
  type Counts = map<string, int>

  /** Every tag's count attribute is present on the patch. */
  predicate HasCountsFor(tags: seq<Tag>, counts: Counts)
  {
    forall i :: 0 <= i < |tags| ==> tags[i].attrName in counts
  }

  /** No later tag in the list has the same name as `tags[i]`. */
  predicate LastWithName(tags: seq<Tag>, i: nat)
    requires i < |tags|
  {
    forall j :: i < j < |tags| ==> tags[j].name != tags[i].name
  }

  /** The set of the tags' names. */
  function TagNames(tags: seq<Tag>): (r: set<string>)
    ensures forall i :: 0 <= i < |tags| ==> tags[i].name in r
    ensures |r| <= |tags|
  {
    if tags == [] then {}
    else
      var n := |tags| - 1;
      var r := TagNames(tags[..n]) + {tags[n].name};
      assert forall i :: 0 <= i < n ==> tags[..n][i] == tags[i];
      r
  }

  /** The dict comprehension `{x.name: getattr(instance, x.attr_name) for x in tags}`:
      one key per tag name, and where two tags share a name the later one wins. */
  function TagMap(tags: seq<Tag>, counts: Counts): (m: map<string, int>)
    requires HasCountsFor(tags, counts)
    ensures m.Keys == TagNames(tags)
    ensures forall i :: 0 <= i < |tags| && LastWithName(tags, i) ==>
      m[tags[i].name] == counts[tags[i].attrName]
    decreases |tags|
  {
    if tags == [] then map[]
    else
      var n := |tags| - 1;
      var init := tags[..n];
      assert forall i :: 0 <= i < n ==> init[i] == tags[i];
      var prev := TagMap(init, counts);
      var m := prev[tags[n].name := counts[tags[n].attrName]];
      assert forall i :: 0 <= i < n && LastWithName(tags, i) ==>
        LastWithName(init, i) && tags[i].name != tags[n].name;
      m
  }

  /** `get_tags`: the tag map, or `None` when the project has no tags. */
  function GetTags(tags: seq<Tag>, counts: Counts): (r: Option<map<string, int>>)
    requires HasCountsFor(tags, counts)
    ensures r.None? <==> tags == []
    ensures r.Some? ==> r.value.Keys == TagNames(tags)
    ensures r.Some? ==> forall i :: 0 <= i < |tags| && LastWithName(tags, i) ==>
      r.value[tags[i].name] == counts[tags[i].attrName]
  {
    if tags != [] then Some(TagMap(tags, counts)) else None
  }

  /** With distinct tag names, every tag shows exactly its own count. */
  lemma GetTagsDistinctNames(tags: seq<Tag>, counts: Counts)
    requires HasCountsFor(tags, counts)
    requires forall i, j :: 0 <= i < j < |tags| ==> tags[i].name != tags[j].name
    ensures tags != [] ==> GetTags(tags, counts).Some? && |GetTags(tags, counts).value| == |tags|
    ensures tags != [] ==> forall i :: 0 <= i < |tags| ==>
      GetTags(tags, counts).value[tags[i].name] == counts[tags[i].attrName]
  {
    if tags != [] {
      DistinctNamesCount(tags);
    }
  }

  /** A tag name in the set is the name of some tag. */
  lemma {:induction false} TagNameHasTag(tags: seq<Tag>, x: string)
    requires x in TagNames(tags)
    ensures exists i :: 0 <= i < |tags| && tags[i].name == x
    decreases |tags|
  {
    var n := |tags| - 1;
    if x != tags[n].name {
      TagNameHasTag(tags[..n], x);
      var i :| 0 <= i < n && tags[..n][i].name == x;
      assert tags[i] == tags[..n][i];
    }
  }

  lemma {:induction false} DistinctNamesCount(tags: seq<Tag>)
    requires forall i, j :: 0 <= i < j < |tags| ==> tags[i].name != tags[j].name
    ensures |TagNames(tags)| == |tags|
    decreases |tags|
  {
    if tags != [] {
      var n := |tags| - 1;
      var init := tags[..n];
      assert forall i :: 0 <= i < n ==> init[i] == tags[i];
      DistinctNamesCount(init);
      if tags[n].name in TagNames(init) {
        TagNameHasTag(init, tags[n].name);
      }
    }
  }

  /** `get_headers`: the parsed header blob, or nothing when no header blob is
      stored. The RFC 5322 parser is a parameter. */
  function GetHeaders<H>(headers: string, parse: string -> H): (r: Option<H>)
    ensures r.None? <==> headers == []
    ensures r.Some? ==> r.value == parse(headers)
  {
    if headers != [] then Some(parse(headers)) else None
  }
}
