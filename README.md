# Patchwork patch API: state slugs, tag summary and serializer fields

Patchwork's REST API shows a patch's workflow state as a slug
(`"under-review"`) instead of the stored state name (`"Under Review"`). It also
shows the patch's tag counts as a name→count mapping. This project models
that logic from `patchwork/api/patch.py` and proves what it promises:

- `format_state_name` turns every hyphen into a space.
- `StateField.to_representation` lower-cases the name and joins its
  whitespace-separated words with hyphens.
- `StateField.to_internal_value` formats the input and looks it up among the
  stored states, ignoring letter case. On a miss it fails with
  `invalid_choice`.
- `PatchListSerializer.get_tags` projects the project's tags onto the patch's
  per-tag counts.
- `PatchDetailSerializer.get_headers` returns nothing when no header blob is
  stored.
- The two serializers' `Meta` declare their field tuples; the detail tuples
  extend the list tuples.

Files and modules:

- `py_str.dfy` (`PyStr`): the Python string operations the code relies on.
  `str.split(sep)`, `str.split()` (runs of whitespace) and `sep.join` are
  written as Python computes them, each with an independent characterisation.
  `str.isspace()` is Python's table of whitespace code points. `str.lower()`
  maps ASCII capitals only.
- `state_field.dfy` (`StateField`): `format_state_name`, `to_representation`,
  the `name__iexact` lookup and `to_internal_value`.
- `patch_serializer.dfy` (`PatchSerializer`): `get_tags` and `get_headers`.
- `patch_meta.dfy` (`PatchMeta`): the `fields` and `read_only_fields` tuples.
  The constant `PatchMeta.ListMeta` transcribes lines 100-106, and
  `PatchMeta.DetailMeta` is `Extend(ListMeta, DetailOnly)` as lines 126-129
  write it. The `PatchMeta` rows below state what is proved about them.
- `wrappers.dfy` (`Wrappers`): the `Option` type that stands for Python's
  `None`.

The set of states, `State.objects.all()`, is a parameter: a sequence of
`State` records in queryset order. A patch's tag-count attributes are a map
from attribute name to count. The RFC 5322 header parser is a function
parameter.

Four details of the code that the model keeps:

- The `choices` text of `invalid_choice` lists the stored names with hyphens
  turned into spaces (`format_state_name(x.name)`, line 62), not slugs:
  "Under Review" appears as `Under Review`, not `under-review`.
- `name` is in `read_only_fields` (line 104), so an update cannot write it.
- `read_only_fields` names `mbox` twice (line 105).
- The docstring (lines 44-47) says the field works for names of
  alphanumerics, underscores and single spaces. It works for single interior
  spaces only. A name with a leading or trailing space, such as `"New "`, has
  the slug `new`, which does not find it again
  (`StateField.EdgeSpacedNameDoesNotRoundTrip`).

## Model

| member | source | states |
|---|---|---|
| `PyStr.LowerChar` | patchwork/api/patch.py:67 | `lower()` on one character: the result is never an ASCII capital; a capital moves to its lower-case letter and every other character is unchanged |
| `PyStr.Lower` | patchwork/api/patch.py:67 | `lower()` keeps the length, leaves no ASCII capital, moves each capital to its lower-case letter and leaves every other character unchanged |
| `PyStr.Join` | patchwork/api/patch.py:38 | `sep.join(xs)` is empty for no pieces; otherwise its length is the pieces' total length plus one separator between each two pieces |
| `PyStr.Split` | patchwork/api/patch.py:38 | `split(sep)` never returns an empty list; it returns a single piece exactly when the separator does not occur, and that piece is the whole string |
| `PyStr.Words` | patchwork/api/patch.py:67 | every word of `split()` is non-empty and holds no whitespace |
| `PyStr.JoinSplitIsReplace` | patchwork/api/patch.py:38 | joining the pieces of `split(c)` with `d` replaces every `c` by `d` |
| `PyStr.SplitJoinRoundTrip` | patchwork/api/patch.py:61-62 | splitting on `c` gives back the pieces that were joined with `c`, when no piece contains `c` |
| `PyStr.JoinTwoCharSeparator` | patchwork/api/patch.py:61 | joining with `", "` equals joining with `","` after putting a space before every piece but the first |
| `PyStr.WordsKeepNonSpaces` | patchwork/api/patch.py:67 | the words of `split()`, concatenated, are exactly the input's non-whitespace characters in order |
| `PyStr.WordsSplitAtSpace` | patchwork/api/patch.py:67 | any whitespace character separates words: the words of `a + c + b` are those of `a` followed by those of `b` |
| `PyStr.SingleWord` | patchwork/api/patch.py:67 | a non-empty string without whitespace is one word; with the two rows above this characterises `split()` independently of its definition |
| `PyStr.JoinWordsOfSingleSpaced` | patchwork/api/patch.py:67 | for a string with only single interior spaces, `sep.join(s.split())` is `s` with each space replaced by `sep` |
| `PyStr.LowerReplaceCommute` | patchwork/api/patch.py:58-59 | lower-casing commutes with replacing a character that is no ASCII letter by one that is no capital |
| `StateField.FormatStateName` | patchwork/api/patch.py:37-38 | `' '.join(s.split('-'))` equals `s` with every hyphen replaced by a space |
| `StateField.ToRepresentation` | patchwork/api/patch.py:66-67 | the slug contains no ASCII capital and no whitespace character |
| `StateField.FormatStateNameReplacesHyphens` | patchwork/api/patch.py:37-38 | `format_state_name` keeps the length, maps each `-` to a space, leaves every other character unchanged, and leaves no hyphen |
| `StateField.RepresentationIsSlug` | patchwork/api/patch.py:66-67 | for a hyphen-free name with at least one word, the slug's `-`-separated pieces are the words of the lower-cased name |
| `StateField.RepresentationIgnoresSpacing` | patchwork/api/patch.py:66-67 | leading and trailing whitespace vanish from the slug, a run of two whitespace characters counts once, and any whitespace character counts as a space |
| `StateField.SlugRoundTrip` | patchwork/api/patch.py:66-67 | formatting the slug of a hyphen-free, single-spaced name gives the lower-cased name |
| `StateField.DocumentedNamesAreSlugSafe` | patchwork/api/patch.py:44-47 | names of letters, digits, underscores and single interior spaces are hyphen-free and single-spaced |
| `StateField.ToInternalValueInvertsRepresentation` | patchwork/api/patch.py:56-67 | with names unique ignoring case, `to_internal_value(to_representation(st))` returns `st` for every stored state whose name is hyphen-free and single-spaced |
| `StateField.DocumentedNamesRoundTrip` | patchwork/api/patch.py:42-47 | the same round trip for names of ASCII alphanumerics, underscores and single interior spaces |
| `StateField.HyphenatedNameDoesNotRoundTrip` | patchwork/api/patch.py:44-47 | a state whose name contains a hyphen is never found from its own slug |
| `StateField.EdgeSpacedNameDoesNotRoundTrip` | patchwork/api/patch.py:44-47 | a hyphen-free state name that starts or ends with whitespace is never found from its own slug |
| `StateField.Get` | patchwork/api/patch.py:59-60 | the `name__iexact` lookup returns the one state whose name equals the key ignoring case, and `None` (`DoesNotExist`) exactly when no state matches |
| `StateField.ToInternalValue` | patchwork/api/patch.py:56-62 | on success returns a stored state whose name equals the formatted input ignoring case; fails with `invalid_choice` exactly when none matches, reporting the formatted input as `name` and the choices text as `choices` |
| `StateField.ToInternalValueIgnoresCase` | patchwork/api/patch.py:58-59 | inputs that differ only in letter case succeed or fail together and find the same state |
| `StateField.HyphensActAsSpaces` | patchwork/api/patch.py:56-62 | turning every hyphen of the input into a space changes neither the state found nor the failure reported |
| `StateField.ChoiceList` | patchwork/api/patch.py:61-62 | one entry per state in queryset order, each the stored name with every hyphen replaced by a space, so no entry has a hyphen |
| `StateField.Choices` | patchwork/api/patch.py:61-62 | the choices text is empty for an empty queryset and never contains a hyphen |
| `StateField.ChoicesOneEntryPerState` | patchwork/api/patch.py:61-62 | for a non-empty queryset of comma-free names, split at commas, the choices text has one entry per state in queryset order, each the stored name with hyphens turned into spaces (after the first, behind the separator's space) |
| `StateField.ListedChoiceIsAccepted` | patchwork/api/patch.py:58-62 | with names unique ignoring case, a listed choice of a hyphen-free name is accepted as input and yields its state |
| `PatchSerializer.TagNames` | patchwork/api/patch.py:86-87 | every tag's name is in the key set, which has at most one name per tag |
| `PatchSerializer.TagMap` | patchwork/api/patch.py:86-87 | the dict comprehension has exactly the tag names as keys; each name maps to the count named by the `attr_name` of the last tag with that name |
| `PatchSerializer.GetTags` | patchwork/api/patch.py:84-89 | `None` exactly when the project has no tags; otherwise a map whose keys are the tag names, each mapped to its tag's count |
| `PatchSerializer.GetTagsDistinctNames` | patchwork/api/patch.py:84-87 | with distinct tag names, the map has one entry per tag and each tag shows its own count |
| `PatchSerializer.DistinctNamesCount` | patchwork/api/patch.py:86-87 | distinct tag names give as many keys as tags |
| `PatchSerializer.GetHeaders` | patchwork/api/patch.py:120-122 | nothing exactly when no header blob is stored; otherwise the parser's result for the blob |
| `PatchMeta.Extend` | patchwork/api/patch.py:126-129 | an extended `Meta` keeps the parent's tuples as prefixes and appends the extra fields to both; a field is writable in it exactly when it is writable in the parent and not one of the extra fields; read-only fields stay declared |
| `PatchMeta.DetailExtendsList` | patchwork/api/patch.py:126-129 | the list fields never include `headers`, `content` or `diff`; the detail fields and read-only fields are the list tuples followed by `headers`, `content`, `diff` in that order |
| `PatchMeta.ReadOnlyFieldsAreDeclared` | patchwork/api/patch.py:100-106 | every read-only field of both serializers is a declared field |
| `PatchMeta.StateIsWritable` | patchwork/api/patch.py:100-106 | `state` is declared and not read-only |
| `PatchMeta.NameIsReadOnly` | patchwork/api/patch.py:104-106 | `name` is declared and read-only |
| `PatchMeta.DetailAddsNoWritableField` | patchwork/api/patch.py:128-129 | the detail serializer makes exactly the list serializer's fields writable |

## Left out

- The `incorrect_type` branch (lines 63-64) and non-string input: the input is modelled as a string. A non-string reaching `format_state_name` would raise `AttributeError`, which that branch does not catch.
- The `required` error: raising it when the field is absent is done by the framework, not by this file.
- `StateField.ToInternalValue`: more than one state matching the input ignoring case makes Django's `get` raise `MultipleObjectsReturned`, which is not caught. The precondition `AtMostOneMatch` rules this out instead of modelling the exception.
- The text of the error messages (lines 49-54): the model returns the `name` and `choices` values, not the translated message built from them.
- `PyStr.LowerChar`: does not model Unicode case mapping; only ASCII letters are lower-cased. The database collation behind `iexact` is modelled as the same ASCII folding.
- `PatchSerializer.GetTags`: requires every tag's `attr_name` to be present on the patch. The tag-count query (`with_tag_counts`) attaches these attributes; a missing one would raise `AttributeError`.
- `PatchSerializer.GetHeaders`: the stored header blob is a string; a database `NULL` is not told apart from the empty string. The RFC 5322 parser is a parameter.
- `PatchMeta.StateIsWritable` and `PatchMeta.NameIsReadOnly` state writability for `state` and `name` only. The other declared-writable fields (`id`, `url`, `commit_ref`, `pull_url`, `archived`, `delegate`) are not stated one by one. The framework also treats `id` and `url` as read-only on its own, which is not modelled.
- `get_mbox`, `get_checks` and the hyperlink `extra_kwargs`: URL building through the request and Django's URL reversal, which is framework code.
- `get_check`: returns `combined_check_state`, which is computed by the `Patch` model; that model is not part of this project.
- The `PatchList` and `PatchDetail` views: queryset composition (tag counts, prefetching, deferred columns), permissions, filtering, search and ordering. All of this is framework plumbing.
- How a serializer turns a record into a mapping with exactly its declared fields is the framework's job. Only the declared tuples are modelled.
