/** The `Meta` field declarations of `PatchListSerializer` and
    `PatchDetailSerializer`: which fields each representation carries and
    which of them an update may not write. */
module PatchMeta {

  /** The serializer field names the two `Meta` classes declare. */
  datatype Field =
    | Id | Url | Project | Msgid | Date | Name | CommitRef | PullUrl | State
    | Archived | Hash | Submitter | Delegate | Mbox | Series | Check | Checks
    | Tags | Headers | Content | Diff

  /** The `fields` and `read_only_fields` tuples of a serializer's `Meta`. */
  datatype Meta = Meta(fields: seq<Field>, readOnlyFields: seq<Field>)

  /** `PatchListSerializer.Meta` (`mbox` is listed twice as read-only). */
  const ListMeta := Meta(
    [Id, Url, Project, Msgid, Date, Name, CommitRef, PullUrl, State, Archived,
     Hash, Submitter, Delegate, Mbox, Series, Check, Checks, Tags],
    [Project, Msgid, Date, Name, Hash, Submitter, Mbox, Mbox, Series, Check,
     Checks, Tags])

  /** The large text columns only the detail view shows. */
  const DetailOnly: seq<Field> := [Headers, Content, Diff]

  /** A subclass `Meta` whose tuples are its parent's, extended: the parent's
      tuples stay as prefixes, the extra fields are appended to both, and a
      field is writable exactly when the parent has it writable and it is not
      one of the extra fields. */
  function Extend(parent: Meta, extra: seq<Field>): (r: Meta)
    ensures |r.fields| == |parent.fields| + |extra|
    ensures |r.readOnlyFields| == |parent.readOnlyFields| + |extra|
    ensures r.fields[..|parent.fields|] == parent.fields
    ensures r.fields[|parent.fields|..] == extra
    ensures r.readOnlyFields[..|parent.readOnlyFields|] == parent.readOnlyFields
    ensures r.readOnlyFields[|parent.readOnlyFields|..] == extra
    ensures forall f :: Writable(r, f) <==> Writable(parent, f) && f !in extra
    ensures ReadOnlyDeclared(parent) ==> ReadOnlyDeclared(r)
  {
    Meta(parent.fields + extra, parent.readOnlyFields + extra)
  }

  /** `PatchDetailSerializer.Meta`. */
  const DetailMeta := Extend(ListMeta, DetailOnly)

  /** A declared field that is not declared read-only: an update may write it. */
  predicate Writable(m: Meta, f: Field)
  {
    f in m.fields && f !in m.readOnlyFields
  }

  /** Every declared read-only field is a declared field. */
  predicate ReadOnlyDeclared(m: Meta)
  {
    forall f :: f in m.readOnlyFields ==> f in m.fields
  }

  /** The list representation never carries the large text columns; the detail
      representation carries them, read-only, after all the list fields. */
  lemma DetailExtendsList()
    ensures forall f :: f in DetailOnly ==> f !in ListMeta.fields
    ensures forall f :: f in DetailOnly ==> f in DetailMeta.fields && f in DetailMeta.readOnlyFields
    ensures DetailMeta.fields == ListMeta.fields + [Headers, Content, Diff]
    ensures DetailMeta.readOnlyFields == ListMeta.readOnlyFields + [Headers, Content, Diff]
  {
  }

  /** Both read-only tuples name declared fields only. */
  lemma ReadOnlyFieldsAreDeclared()
    ensures ReadOnlyDeclared(ListMeta)
    ensures ReadOnlyDeclared(DetailMeta)
  {
  }

  /** `state`, the field `StateField` validates, is writable. */
  lemma StateIsWritable()
    ensures Writable(ListMeta, State)
  {
  }

  /** `name` is declared read-only: an update cannot rename a patch. */
  lemma NameIsReadOnly()
    ensures Name in ListMeta.fields && !Writable(ListMeta, Name)
  {
  }

  /** The detail serializer makes nothing writable beyond the list serializer. */
  lemma DetailAddsNoWritableField()
    ensures forall f :: Writable(DetailMeta, f) <==> Writable(ListMeta, f)
  {
    DetailExtendsList();
  }
}
