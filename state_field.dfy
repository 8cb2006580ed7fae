/** `StateField` of the patch REST API: the conversion between a stored patch
    state (a record with a display name such as "Under Review") and the slug
    the API shows and accepts ("under-review"). The universe of states is the
    queryset `State.objects.all()`, given here as a sequence in queryset order. */
module StateField {
  import opened PyStr
  import opened Wrappers

  /** A stored patch state; only its name takes part in the conversion. */
  datatype State = State(name: string)

  /** The outcome of `to_internal_value`: the state found, or the
      `invalid_choice` failure with the two values its message is built from. */
  datatype StateResult =
    | Ok(state: State)
    | InvalidChoice(name: string, choices: string)

  /** `format_state_name`: `' '.join(state.split('-'))`. */
  function FormatStateName(s: string): (r: string)
    ensures r == Replace(s, '-', ' ')
  {
    JoinSplitIsReplace(s, '-', ' ');
    Join(" ", Split(s, '-'))
  }

  /** `to_representation`: `'-'.join(obj.name.lower().split())`. */
  function ToRepresentation(st: State): (r: string)
    ensures forall i :: 0 <= i < |r| ==> !IsUpper(r[i]) && !IsSpace(r[i])
  {
    SlugCharacters(st.name);
    Join("-", Words(Lower(st.name)))
  }

  /** The `name__iexact=key` filter. */
  predicate Matches(st: State, key: string)
  {
    EqualsIgnoringCase(st.name, key)
  }

  /** `get` does not raise `MultipleObjectsReturned` for `key`. */
  predicate AtMostOneMatch(states: seq<State>, key: string)
  {
    forall i, j :: 0 <= i < j < |states| && Matches(states[i], key) ==> !Matches(states[j], key)
  }

  /** No two stored states have names that differ only in letter case. */
  predicate UniqueIgnoringCase(states: seq<State>)
  {
    forall i, j :: 0 <= i < j < |states| ==> !EqualsIgnoringCase(states[i].name, states[j].name)
  }

  /** `get(name__iexact=key)` over the queryset: the one matching state, or
      `None` where Django raises `State.DoesNotExist`. */
  function Get(states: seq<State>, key: string): (r: Option<State>)
    requires AtMostOneMatch(states, key)
    ensures forall i :: 0 <= i < |states| && Matches(states[i], key) ==> r == Some(states[i])
    ensures r.None? <==> forall i :: 0 <= i < |states| ==> !Matches(states[i], key)
    ensures r.Some? ==> r.value in states && Matches(r.value, key)
  {
    if states == [] then None
    else if Matches(states[0], key) then Some(states[0])
    else
      assert AtMostOneMatch(states[1..], key) by {
        forall i, j | 0 <= i < j < |states| - 1 && Matches(states[1..][i], key)
          ensures !Matches(states[1..][j], key)
        {
          assert states[1..][i] == states[i + 1] && states[1..][j] == states[j + 1];
        }
      }
      var r := Get(states[1..], key);
      assert forall i :: 1 <= i < |states| ==> states[i] == states[1..][i - 1];
      r
  }

  /** The list comprehension `[format_state_name(x.name) for x in queryset]`. */
  function ChoiceList(states: seq<State>): (r: seq<string>)
    ensures |r| == |states|
    ensures forall i :: 0 <= i < |states| ==> r[i] == Replace(states[i].name, '-', ' ')
    ensures NoneContains(r, '-')
  {
    seq(|states|, i requires 0 <= i < |states| => FormatStateName(states[i].name))
  }

  /** The `choices` text of `invalid_choice`: `', '.join(...)` of the list above. */
  function Choices(states: seq<State>): (r: string)
    ensures states == [] ==> r == []
    ensures '-' !in r
  {
    JoinAvoids(", ", ChoiceList(states), '-');
    Join(", ", ChoiceList(states))
  }

  /** `to_internal_value`: reformat the input, then look it up ignoring case. */
  function ToInternalValue(states: seq<State>, data: string): (r: StateResult)
    requires AtMostOneMatch(states, FormatStateName(data))
    ensures r.Ok? ==> r.state in states && EqualsIgnoringCase(r.state.name, FormatStateName(data))
    ensures r.InvalidChoice? <==> forall i :: 0 <= i < |states| ==> !Matches(states[i], FormatStateName(data))
    ensures r.InvalidChoice? ==> r.name == FormatStateName(data) && r.choices == Choices(states)
  {
    var key := FormatStateName(data);
    match Get(states, key)
    case Some(st) => Ok(st)
    case None => InvalidChoice(key, Choices(states))
  }

  // ---------------------------------------------------------------------------
  // format_state_name

  /** Every hyphen becomes a space; nothing else changes. */
  lemma FormatStateNameReplacesHyphens(s: string)
    ensures FormatStateName(s) == Replace(s, '-', ' ')
    ensures |FormatStateName(s)| == |s|
    ensures forall i :: 0 <= i < |s| ==> FormatStateName(s)[i] == (if s[i] == '-' then ' ' else s[i])
    ensures '-' !in FormatStateName(s)
  {
    JoinSplitIsReplace(s, '-', ' ');
  }

  // ---------------------------------------------------------------------------
  // to_representation

  /** No character of a slug is an upper-case letter or whitespace. */
  lemma SlugCharacters(name: string)
    ensures forall i :: 0 <= i < |Join("-", Words(Lower(name)))| ==>
      !IsUpper(Join("-", Words(Lower(name)))[i]) && !IsSpace(Join("-", Words(Lower(name)))[i])
  {
    var low := Lower(name);
    var ws := Words(low);
    var slug := Join("-", ws);
    forall i | 0 <= i < |slug|
      ensures !IsUpper(slug[i]) && !IsSpace(slug[i])
    {
      assert slug[i] in slug;
      JoinChars("-", ws, slug[i]);
      if slug[i] !in "-" {
        var k :| 0 <= k < |ws| && slug[i] in ws[k];
        WordCharsOccurInInput(low, k, slug[i]);
        var j :| 0 <= j < |ws[k]| && ws[k][j] == slug[i];
        assert IsWord(ws[k]);
      }
    }
  }

  /** When the name has no hyphen, the slug's `'-'`-separated pieces are the
      words of the lower-cased name. */
  lemma RepresentationIsSlug(st: State)
    ensures '-' !in st.name && Words(Lower(st.name)) != [] ==>
      Split(ToRepresentation(st), '-') == Words(Lower(st.name))
  {
    var low := Lower(st.name);
    var ws := Words(low);
    LowerKeepsSpacesAndHyphens(st.name);
    if '-' !in st.name && ws != [] {
      assert NoneContains(ws, '-') by {
        forall k, j | 0 <= k < |ws| && 0 <= j < |ws[k]| ensures ws[k][j] != '-' {
          WordCharsOccurInInput(low, k, ws[k][j]);
        }
      }
      SplitJoinRoundTrip(ws, '-');
    }
  }

  /** Leading and trailing whitespace vanish, a run of whitespace counts once,
      and any whitespace character counts as a space. */
  lemma RepresentationIgnoresSpacing(a: string, c: char, d: char, b: string)
    requires IsSpace(c) && IsSpace(d)
    ensures ToRepresentation(State([c] + b)) == ToRepresentation(State(b))
    ensures ToRepresentation(State(a + [c])) == ToRepresentation(State(a))
    ensures ToRepresentation(State(a + [c, d] + b)) == ToRepresentation(State(a + [c] + b))
    ensures ToRepresentation(State(a + [c] + b)) == ToRepresentation(State(a + " " + b))
  {
    var la, lb := Lower(a), Lower(b);
    LowerAppend([c], b);
    assert Lower([c]) == [c];
    LeadingSpaceVanishes(c, lb);
    LowerAppend(a, [c]);
    TrailingSpaceVanishes(la, c);
    LowerAppend(a + [c, d], b);
    LowerAppend(a, [c, d]);
    assert Lower([c, d]) == [c, d];
    LowerAppend(a + [c], b);
    RepeatedSpaceCollapses(la, c, d, lb);
    LowerAppend(a + " ", b);
    LowerAppend(a, " ");
    assert Lower(" ") == " ";
    AnySpaceSplitsLikeSpace(la, c, lb);
  }

  // ---------------------------------------------------------------------------
  // The round trip

  /** The names the conversion is meant for: no hyphen, and single interior
      spaces as the only whitespace. */
  predicate SlugSafe(name: string)
  {
    '-' !in name && SingleSpaced(name)
  }

  predicate IsAlnumOrUnderscore(c: char)
  {
    ('a' <= c <= 'z') || ('A' <= c <= 'Z') || ('0' <= c <= '9') || c == '_'
  }

  /** Names of ASCII alphanumerics, underscores and single interior spaces.
      The field's docstring says "single spaces"; a single leading or trailing
      space also fits those words, but such names do not round-trip (see
      `EdgeSpacedNameDoesNotRoundTrip`). */
  predicate DocumentedStateName(name: string)
  {
    && (forall i :: 0 <= i < |name| ==> IsAlnumOrUnderscore(name[i]) || name[i] == ' ')
    && (forall i :: 0 <= i < |name| && name[i] == ' ' ==> 0 < i < |name| - 1 && name[i + 1] != ' ')
  }

  lemma DocumentedNamesAreSlugSafe(name: string)
    requires DocumentedStateName(name)
    ensures SlugSafe(name)
  {
    assert forall i :: 0 <= i < |name| ==> name[i] != '-';
  }

  /** Formatting the slug of a slug-safe name gives back the lower-cased name. */
  lemma SlugRoundTrip(name: string)
    requires SlugSafe(name)
    ensures FormatStateName(ToRepresentation(State(name))) == Lower(name)
  {
    var low := Lower(name);
    LowerKeepsSpacesAndHyphens(name);
    assert SingleSpaced(low) by {
      forall i | 0 <= i < |low| && low[i] == ' '
        ensures 0 < i < |low| - 1 && low[i + 1] != ' '
      {
        assert name[i] == ' ';
      }
    }
    JoinWordsOfSingleSpaced(low, '-');
    var slug := Replace(low, ' ', '-');
    FormatStateNameReplacesHyphens(slug);
    assert forall i :: 0 <= i < |low| ==> low[i] != '-' by {
      forall i | 0 <= i < |low| ensures low[i] != '-' {
        assert name[i] in name;
      }
    }
  }

  /** `to_internal_value(to_representation(st))` finds `st` again, when names
      are unique ignoring case and the name of `st` is slug-safe. */
  lemma ToInternalValueInvertsRepresentation(states: seq<State>, st: State)
    requires UniqueIgnoringCase(states)
    requires st in states
    requires SlugSafe(st.name)
    ensures AtMostOneMatch(states, FormatStateName(ToRepresentation(st)))
    ensures ToInternalValue(states, ToRepresentation(st)) == Ok(st)
  {
    var key := FormatStateName(ToRepresentation(st));
    SlugRoundTrip(st.name);
    LowerProperties(st.name);
    assert AtMostOneMatch(states, key) by {
      forall i, j | 0 <= i < j < |states| && Matches(states[i], key)
        ensures !Matches(states[j], key)
      {
        assert !EqualsIgnoringCase(states[i].name, states[j].name);
      }
    }
    var k :| 0 <= k < |states| && states[k] == st;
    assert Matches(states[k], key);
  }

  /** The same for the documented class of names. */
  lemma DocumentedNamesRoundTrip(states: seq<State>, st: State)
    requires UniqueIgnoringCase(states)
    requires st in states
    requires DocumentedStateName(st.name)
    ensures AtMostOneMatch(states, FormatStateName(ToRepresentation(st)))
    ensures ToInternalValue(states, ToRepresentation(st)) == Ok(st)
  {
    DocumentedNamesAreSlugSafe(st.name);
    ToInternalValueInvertsRepresentation(states, st);
  }

  /** A name with a hyphen does not round-trip: formatting its slug turns
      every hyphen into a space, so the lookup never returns that state. */
  lemma HyphenatedNameDoesNotRoundTrip(states: seq<State>, st: State)
    requires '-' in st.name
    requires AtMostOneMatch(states, FormatStateName(ToRepresentation(st)))
    ensures !Matches(st, FormatStateName(ToRepresentation(st)))
    ensures ToInternalValue(states, ToRepresentation(st)) != Ok(st)
  {
    var key := FormatStateName(ToRepresentation(st));
    FormatStateNameReplacesHyphens(ToRepresentation(st));
    LowerKeepsSpacesAndHyphens(key);
    LowerKeepsSpacesAndHyphens(st.name);
    var j :| 0 <= j < |st.name| && st.name[j] == '-';
    assert Lower(st.name)[j] == '-';
    assert '-' !in Lower(key) by {
      forall i | 0 <= i < |Lower(key)| ensures Lower(key)[i] != '-' {
        assert key[i] in key;
      }
    }
  }

  /** A hyphen-free name that starts or ends with whitespace does not
      round-trip: the slug drops that whitespace, so the formatted slug never
      equals the name ignoring case and the lookup never returns that state. */
  lemma EdgeSpacedNameDoesNotRoundTrip(states: seq<State>, st: State)
    requires '-' !in st.name
    requires |st.name| > 0 && (IsSpace(st.name[0]) || IsSpace(st.name[|st.name| - 1]))
    requires AtMostOneMatch(states, FormatStateName(ToRepresentation(st)))
    ensures !Matches(st, FormatStateName(ToRepresentation(st)))
    ensures ToInternalValue(states, ToRepresentation(st)) != Ok(st)
  {
    var name := st.name;
    var low := Lower(name);
    var ws := Words(low);
    var slug := ToRepresentation(st);
    var key := FormatStateName(slug);
    LowerKeepsSpacesAndHyphens(name);
    LowerKeepsSpacesAndHyphens(key);
    if |key| == |name| {
      var n := |name| - 1;
      assert ws != [];
      JoinEnds("-", ws);
      var last := ws[|ws| - 1];
      assert slug[0] in ws[0] && slug[n] in last;
      WordCharsOccurInInput(low, 0, slug[0]);
      WordCharsOccurInInput(low, |ws| - 1, slug[n]);
      assert slug[0] != '-' && slug[n] != '-' by {
        forall ch | ch in low ensures ch != '-' {
          var j :| 0 <= j < |low| && low[j] == ch;
          assert name[j] in name;
        }
      }
      assert !IsSpace(Lower(key)[0]) && !IsSpace(Lower(key)[n]);
      assert Lower(key) != low by {
        assert IsSpace(low[0]) || IsSpace(low[n]);
      }
    }
  }

  // ---------------------------------------------------------------------------
  // Lookup

  /** Inputs that differ only in letter case give the same lookup result. */
  lemma ToInternalValueIgnoresCase(states: seq<State>, d1: string, d2: string)
    requires EqualsIgnoringCase(d1, d2)
    requires AtMostOneMatch(states, FormatStateName(d1))
    ensures AtMostOneMatch(states, FormatStateName(d2))
    ensures ToInternalValue(states, d1).Ok? == ToInternalValue(states, d2).Ok?
    ensures ToInternalValue(states, d1).Ok? ==> ToInternalValue(states, d1).state == ToInternalValue(states, d2).state
  {
    FormatStateNameReplacesHyphens(d1);
    FormatStateNameReplacesHyphens(d2);
    LowerReplaceCommute(d1, '-', ' ');
    LowerReplaceCommute(d2, '-', ' ');
    var k1, k2 := FormatStateName(d1), FormatStateName(d2);
    assert forall st :: Matches(st, k1) <==> Matches(st, k2);
  }

  /** A hyphen in the input acts exactly like a space: turning every hyphen of
      the input into a space changes neither the state found nor the failure. */
  lemma HyphensActAsSpaces(states: seq<State>, data: string)
    requires AtMostOneMatch(states, FormatStateName(data))
    ensures AtMostOneMatch(states, FormatStateName(Replace(data, '-', ' ')))
    ensures ToInternalValue(states, Replace(data, '-', ' ')) == ToInternalValue(states, data)
  {
    var spaced := Replace(data, '-', ' ');
    FormatStateNameReplacesHyphens(data);
    FormatStateNameReplacesHyphens(spaced);
    assert Replace(spaced, '-', ' ') == spaced;
  }

  // ---------------------------------------------------------------------------
  // The choices of invalid_choice

  /** Split at its commas, the `choices` text has one entry per state in
      queryset order: the stored name with hyphens turned into spaces, and
      after the first a leading space from the `', '` separator. */
  lemma ChoicesOneEntryPerState(states: seq<State>)
    requires |states| > 0
    requires forall i :: 0 <= i < |states| ==> ',' !in states[i].name
    ensures |Split(Choices(states), ',')| == |states|
    ensures Split(Choices(states), ',')[0] == Replace(states[0].name, '-', ' ')
    ensures forall i :: 1 <= i < |states| ==> Split(Choices(states), ',')[i] == " " + Replace(states[i].name, '-', ' ')
  {
    var xs := ChoiceList(states);
    var ys := [xs[0]] + seq(|xs| - 1, i requires 0 <= i < |xs| - 1 => [' '] + xs[i + 1]);
    JoinTwoCharSeparator(xs, ',', ' ');
    assert Choices(states) == Join([','], ys);
    forall i | 0 <= i < |states|
      ensures xs[i] == Replace(states[i].name, '-', ' ') && ',' !in xs[i]
    {
      FormatStateNameReplacesHyphens(states[i].name);
      forall j | 0 <= j < |xs[i]| ensures xs[i][j] != ',' {
        assert states[i].name[j] in states[i].name;
      }
    }
    assert NoneContains(ys, ',') by {
      forall k | 0 <= k < |ys| ensures ',' !in ys[k] {
        if k > 0 {
          assert ys[k] == [' '] + xs[k];
        }
      }
    }
    SplitJoinRoundTrip(ys, ',');
  }

  /** A listed choice of a hyphen-free name, sent back as input, is accepted
      and yields its state. */
  lemma ListedChoiceIsAccepted(states: seq<State>, i: nat)
    requires UniqueIgnoringCase(states)
    requires i < |states| && '-' !in states[i].name
    ensures AtMostOneMatch(states, FormatStateName(ChoiceList(states)[i]))
    ensures ToInternalValue(states, ChoiceList(states)[i]) == Ok(states[i])
  {
    var n := states[i].name;
    FormatStateNameReplacesHyphens(n);
    ReplaceNoMatch(n, '-', ' ');
    FormatStateNameReplacesHyphens(n);
    var key := FormatStateName(ChoiceList(states)[i]);
    assert key == n;
    assert AtMostOneMatch(states, key) by {
      forall a, b | 0 <= a < b < |states| && Matches(states[a], key)
        ensures !Matches(states[b], key)
      {
        assert !EqualsIgnoringCase(states[a].name, states[b].name);
      }
    }
    assert Matches(states[i], key);
  }
}
