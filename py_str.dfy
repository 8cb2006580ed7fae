/** The parts of Python's `str` that the patch API relies on.
    `split(sep)`, `split()` (runs of whitespace) and `sep.join(...)` are written
    the way Python computes them, each with an independent characterisation
    proved about it. `isspace()` is Python's table of whitespace code points.
    `lower()` maps ASCII capitals only. */
module PyStr {

  /** `c.isspace()`: the code points Python 3 classifies as whitespace. */
  predicate IsSpace(c: char)
  {
    || c == ' '
    || ('\t' <= c <= '\r')                    // \t \n \v \f \r
    || ('\U{1C}' <= c <= '\U{1F}')            // file, group, record, unit separators
    || c == '\U{85}' || c == '\U{A0}' || c == '\U{1680}'
    || ('\U{2000}' <= c <= '\U{200A}')
    || c == '\U{2028}' || c == '\U{2029}' || c == '\U{202F}' || c == '\U{205F}'
    || c == '\U{3000}'
  }

  predicate IsUpper(c: char)
  {
    'A' <= c <= 'Z'
  }

  /** `c.lower()` restricted to ASCII letters. */
  function LowerChar(c: char): (r: char)
    ensures !IsUpper(r)
    ensures IsUpper(c) ==> r as int == c as int + 32
    ensures !IsUpper(c) ==> r == c
  {
    if IsUpper(c) then (c as int + 32) as char else c
  }

  /** `s.lower()` restricted to ASCII letters. */
  function Lower(s: string): (r: string)
    ensures |r| == |s|
    ensures forall i :: 0 <= i < |s| ==> !IsUpper(r[i])
    ensures forall i :: 0 <= i < |s| && !IsUpper(s[i]) ==> r[i] == s[i]
    ensures forall i :: 0 <= i < |s| && IsUpper(s[i]) ==> r[i] as int == s[i] as int + 32
  {
    seq(|s|, i requires 0 <= i < |s| => LowerChar(s[i]))
  }

  /** Django's `iexact` comparison, with ASCII case folding. */
  predicate EqualsIgnoringCase(a: string, b: string)
  {
    Lower(a) == Lower(b)
  }

  /** The reference meaning of "replace every `c` by `d`", character by character. */
  function Replace(s: string, c: char, d: char): (r: string)
  {
    seq(|s|, i requires 0 <= i < |s| => if s[i] == c then d else s[i])
  }

  /** `s.split(sep)` for a one-character separator: never empty, `"".split(sep) == [""]`. */
  function Split(s: string, sep: char): (r: seq<string>)
    ensures |r| >= 1
    ensures |r| == 1 <==> sep !in s
    ensures |r| == 1 ==> r == [s]
  {
    if s == [] then [[]]
    else if s[0] == sep then [[]] + Split(s[1..], sep)
    else
      var rest := Split(s[1..], sep);
      assert sep in s <==> sep in s[1..] by {
        assert s == [s[0]] + s[1..];
      }
      [[s[0]] + rest[0]] + rest[1..]
  }

  /** `sep.join(xs)`. */
  function Join(sep: string, xs: seq<string>): (r: string)
    ensures |xs| == 0 ==> r == []
    ensures |xs| > 0 ==> |r| == |Concat(xs)| + (|xs| - 1) * |sep|
  {
    if |xs| == 0 then []
    else if |xs| == 1 then xs[0]
    else xs[0] + sep + Join(sep, xs[1..])
  }

  /** Length of the leading run of non-whitespace characters. */
  function WordEnd(s: string): (k: nat)
    ensures k <= |s|
    ensures forall i :: 0 <= i < k ==> !IsSpace(s[i])
    ensures k < |s| ==> IsSpace(s[k])
  {
    if s == [] || IsSpace(s[0]) then 0 else 1 + WordEnd(s[1..])
  }

  /** `s.split()`: the maximal runs of non-whitespace characters, in order;
      leading, trailing and repeated whitespace produce no empty words. */
  function Words(s: string): (ws: seq<string>)
    ensures forall k :: 0 <= k < |ws| ==> IsWord(ws[k])
    decreases |s|
  {
    if s == [] then []
    else if IsSpace(s[0]) then Words(s[1..])
    else
      var k := WordEnd(s);
      [s[..k]] + Words(s[k..])
  }

  /** A word of `split()`: non-empty and free of whitespace. */
  predicate IsWord(w: string)
  {
    |w| > 0 && forall i :: 0 <= i < |w| ==> !IsSpace(w[i])
  }

  /** No piece contains `c`. */
  predicate NoneContains(xs: seq<string>, c: char)
  {
    forall k :: 0 <= k < |xs| ==> c !in xs[k]
  }

  /** All characters of `s` except its whitespace, in order. */
  function DropSpaces(s: string): (r: string)
  {
    if s == [] then []
    else if IsSpace(s[0]) then DropSpaces(s[1..])
    else [s[0]] + DropSpaces(s[1..])
  }

  function Concat(xs: seq<string>): (r: string)
  {
    if xs == [] then [] else xs[0] + Concat(xs[1..])
  }

  // ---------------------------------------------------------------------------
  // Lowercasing

  lemma LowerProperties(s: string)
    ensures |Lower(s)| == |s|
    ensures forall i :: 0 <= i < |s| ==> !IsUpper(Lower(s)[i])
    ensures Lower(Lower(s)) == Lower(s)
  {
  }

  /** Lowercasing leaves whitespace and hyphens where they are. */
  lemma LowerKeepsSpacesAndHyphens(s: string)
    ensures forall i :: 0 <= i < |s| ==> (IsSpace(Lower(s)[i]) <==> IsSpace(s[i]))
    ensures forall i :: 0 <= i < |s| ==> (Lower(s)[i] == '-' <==> s[i] == '-')
    ensures forall i :: 0 <= i < |s| ==> (Lower(s)[i] == ' ' <==> s[i] == ' ')
  {
  }

  /** Lowercasing commutes with a replacement between two non-letters. */
  lemma LowerReplaceCommute(s: string, c: char, d: char)
    requires !IsUpper(c) && !IsUpper(d) && !('a' <= c <= 'z')
    ensures Lower(Replace(s, c, d)) == Replace(Lower(s), c, d)
  {
    forall i | 0 <= i < |s|
      ensures Lower(Replace(s, c, d))[i] == Replace(Lower(s), c, d)[i]
    {
      assert LowerChar(s[i]) == c <==> s[i] == c;
    }
  }

  // ---------------------------------------------------------------------------
  // split(sep) and join

  /** `d.join(s.split(c))` replaces every `c` by `d`. */
  lemma {:induction false} JoinSplitIsReplace(s: string, c: char, d: char)
    ensures Join([d], Split(s, c)) == Replace(s, c, d)
    decreases |s|
  {
    if s == [] {
    } else {
      var rest := Split(s[1..], c);
      JoinSplitIsReplace(s[1..], c, d);
      assert Replace(s, c, d) == [if s[0] == c then d else s[0]] + Replace(s[1..], c, d);
      if s[0] == c {
        assert Split(s, c) == [[]] + rest;
        if |rest| == 1 {
        } else {
          assert ([[]] + rest)[1..] == rest;
        }
      } else {
        var r := Split(s, c);
        assert r == [[s[0]] + rest[0]] + rest[1..];
        if |rest| == 1 {
          assert Join([d], r) == [s[0]] + rest[0];
        } else {
          assert r[1..] == rest[1..];
          assert Join([d], rest) == rest[0] + [d] + Join([d], rest[1..]);
        }
      }
    }
  }

  /** Splitting on `c` undoes joining on `c` when no piece contains `c`. */
  lemma {:induction false} SplitJoinRoundTrip(xs: seq<string>, c: char)
    requires |xs| >= 1
    requires NoneContains(xs, c)
    ensures Split(Join([c], xs), c) == xs
    decreases |xs|, |xs[0]|
  {
    if |xs| == 1 {
      SplitNoSeparator(xs[0], c);
    } else if xs[0] == [] {
      var j := Join([c], xs);
      assert j == [c] + Join([c], xs[1..]);
      assert j[1..] == Join([c], xs[1..]);
      SplitJoinRoundTrip(xs[1..], c);
      assert xs == [[]] + xs[1..];
    } else {
      var j := Join([c], xs);
      var ys := [xs[0][1..]] + xs[1..];
      assert NoneContains(ys, c) by {
        forall k | 0 <= k < |ys| ensures c !in ys[k] {
          if k == 0 {
            assert forall ch :: ch in xs[0][1..] ==> ch in xs[0];
          } else {
            assert ys[k] == xs[k];
          }
        }
      }
      assert Join([c], ys) == xs[0][1..] + [c] + Join([c], xs[1..]) by {
        assert ys[1..] == xs[1..];
      }
      assert j[1..] == Join([c], ys);
      SplitJoinRoundTrip(ys, c);
      assert j[0] == xs[0][0] && xs[0][0] != c;
      assert Split(j, c) == [[xs[0][0]] + ys[0]] + ys[1..];
      assert [xs[0][0]] + ys[0] == xs[0];
    }
  }

  lemma {:induction false} SplitNoSeparator(s: string, c: char)
    requires c !in s
    ensures Split(s, c) == [s]
    decreases |s|
  {
    if s != [] {
      assert s[0] in s;
      assert forall ch :: ch in s[1..] ==> ch in s;
      SplitNoSeparator(s[1..], c);
    }
  }

  /** `", ".join(xs)` is `",".join` of the same pieces with a space in front of
      every piece but the first. */
  lemma {:induction false} JoinTwoCharSeparator(xs: seq<string>, c: char, d: char)
    requires |xs| >= 1
    ensures Join([c, d], xs) == Join([c], [xs[0]] + seq(|xs| - 1, i requires 0 <= i < |xs| - 1 => [d] + xs[i + 1]))
    decreases |xs|
  {
    var ys := [xs[0]] + seq(|xs| - 1, i requires 0 <= i < |xs| - 1 => [d] + xs[i + 1]);
    if |xs| > 1 {
      var tail := xs[1..];
      var zs := [tail[0]] + seq(|tail| - 1, i requires 0 <= i < |tail| - 1 => [d] + tail[i + 1]);
      JoinTwoCharSeparator(tail, c, d);
      if |xs| == 2 {
        assert ys == [xs[0], [d] + xs[1]];
      } else {
        assert Join([c], zs) == zs[0] + [c] + Join([c], zs[1..]);
        assert ys[1..] == [[d] + zs[0]] + zs[1..];
        assert Join([c], ys[1..]) == [d] + zs[0] + [c] + Join([c], zs[1..]);
      }
    }
  }

  /** Every character of a join comes from a piece or from the separator. */
  lemma {:induction false} JoinChars(sep: string, xs: seq<string>, ch: char)
    requires ch in Join(sep, xs)
    ensures ch in sep || exists k :: 0 <= k < |xs| && ch in xs[k]
    decreases |xs|
  {
    if |xs| > 1 {
      if ch !in xs[0] && ch !in sep {
        JoinChars(sep, xs[1..], ch);
        var k :| 0 <= k < |xs[1..]| && ch in xs[1..][k];
        assert ch in xs[k + 1];
      }
    }
  }

  // ---------------------------------------------------------------------------
  // split()

  /** What `split()` keeps: exactly the non-whitespace characters, in order. */
  lemma {:induction false} WordsKeepNonSpaces(s: string)
    ensures Concat(Words(s)) == DropSpaces(s)
    decreases |s|
  {
    if s == [] {
    } else if IsSpace(s[0]) {
      WordsKeepNonSpaces(s[1..]);
    } else {
      var k := WordEnd(s);
      WordsKeepNonSpaces(s[k..]);
      NoSpacesDropNothing(s[..k]);
      DropSpacesAppend(s[..k], s[k..]);
      assert s[..k] + s[k..] == s;
      assert ([s[..k]] + Words(s[k..]))[1..] == Words(s[k..]);
    }
  }

  lemma {:induction false} NoSpacesDropNothing(s: string)
    requires forall i :: 0 <= i < |s| ==> !IsSpace(s[i])
    ensures DropSpaces(s) == s
    decreases |s|
  {
    if s != [] {
      NoSpacesDropNothing(s[1..]);
    }
  }

  lemma {:induction false} DropSpacesAppend(a: string, b: string)
    ensures DropSpaces(a + b) == DropSpaces(a) + DropSpaces(b)
    decreases |a|
  {
    if a == [] {
      assert a + b == b;
    } else {
      assert (a + b)[0] == a[0];
      assert (a + b)[1..] == a[1..] + b;
      DropSpacesAppend(a[1..], b);
      if IsSpace(a[0]) {
        assert DropSpaces(a + b) == DropSpaces(a[1..] + b);
        assert DropSpaces(a) == DropSpaces(a[1..]);
      } else {
        assert DropSpaces(a + b) == [a[0]] + DropSpaces(a[1..] + b);
        assert DropSpaces(a) == [a[0]] + DropSpaces(a[1..]);
        assert [a[0]] + (DropSpaces(a[1..]) + DropSpaces(b)) == ([a[0]] + DropSpaces(a[1..])) + DropSpaces(b);
      }
    }
  }

  /** A whitespace character separates words: `split()` of `a + c + b` is the
      words of `a` followed by the words of `b`. */
  lemma {:induction false} WordsSplitAtSpace(a: string, c: char, b: string)
    requires IsSpace(c)
    ensures Words(a + [c] + b) == Words(a) + Words(b)
    decreases |a|
  {
    var s := a + [c] + b;
    if a == [] {
      assert s[1..] == b;
    } else if IsSpace(a[0]) {
      assert s[1..] == a[1..] + [c] + b;
      WordsSplitAtSpace(a[1..], c, b);
    } else {
      var k := WordEnd(a);
      WordEndBeforeSpace(a, c, b);
      assert s[..k] == a[..k];
      assert s[k..] == a[k..] + [c] + b;
      WordsSplitAtSpace(a[k..], c, b);
    }
  }

  lemma {:induction false} WordEndBeforeSpace(a: string, c: char, b: string)
    requires IsSpace(c)
    ensures WordEnd(a + [c] + b) == WordEnd(a)
    decreases |a|
  {
    if a == [] {
    } else if !IsSpace(a[0]) {
      assert (a + [c] + b)[1..] == a[1..] + [c] + b;
      WordEndBeforeSpace(a[1..], c, b);
    }
  }

  /** Leading whitespace vanishes. */
  lemma LeadingSpaceVanishes(c: char, s: string)
    requires IsSpace(c)
    ensures Words([c] + s) == Words(s)
  {
    assert ([c] + s)[1..] == s;
  }

  /** Trailing whitespace vanishes. */
  lemma TrailingSpaceVanishes(s: string, c: char)
    requires IsSpace(c)
    ensures Words(s + [c]) == Words(s)
  {
    WordsSplitAtSpace(s, c, []);
    assert s + [c] + [] == s + [c];
  }

  /** A run of two whitespace characters splits like a single one. */
  lemma RepeatedSpaceCollapses(a: string, c: char, d: char, b: string)
    requires IsSpace(c) && IsSpace(d)
    ensures Words(a + [c, d] + b) == Words(a + [c] + b)
  {
    assert a + [c, d] + b == a + [c] + ([d] + b);
    WordsSplitAtSpace(a, c, [d] + b);
    LeadingSpaceVanishes(d, b);
    WordsSplitAtSpace(a, c, b);
  }

  /** A join begins with the first piece's first character and ends with the
      last piece's last character when no piece is empty. */
  lemma {:induction false} JoinEnds(sep: string, xs: seq<string>)
    requires |xs| > 0 && forall k :: 0 <= k < |xs| ==> |xs[k]| > 0
    ensures |Join(sep, xs)| > 0
    ensures Join(sep, xs)[0] == xs[0][0]
    ensures Join(sep, xs)[|Join(sep, xs)| - 1] == xs[|xs| - 1][|xs[|xs| - 1]| - 1]
    decreases |xs|
  {
    if |xs| > 1 {
      var rest := xs[1..];
      assert forall k :: 0 <= k < |rest| ==> rest[k] == xs[k + 1];
      JoinEnds(sep, rest);
    }
  }

  /** A character found in neither the separator nor any piece is not in the join. */
  lemma {:induction false} JoinAvoids(sep: string, xs: seq<string>, c: char)
    requires c !in sep && NoneContains(xs, c)
    ensures c !in Join(sep, xs)
    decreases |xs|
  {
    if |xs| > 1 {
      var rest := xs[1..];
      assert forall k :: 0 <= k < |rest| ==> rest[k] == xs[k + 1];
      JoinAvoids(sep, rest, c);
    }
  }

  /** Every character of a word of `split()` occurs in the input. */
  lemma {:induction false} WordCharsOccurInInput(s: string, k: nat, ch: char)
    requires k < |Words(s)| && ch in Words(s)[k]
    ensures ch in s
    decreases |s|
  {
    if IsSpace(s[0]) {
      WordCharsOccurInInput(s[1..], k, ch);
    } else {
      var e := WordEnd(s);
      if k > 0 {
        assert Words(s)[k] == Words(s[e..])[k - 1];
        WordCharsOccurInInput(s[e..], k - 1, ch);
      }
    }
  }

  /** A non-empty string without whitespace is one word. Together with
      `WordsSplitAtSpace` (whitespace separates) and `WordsKeepNonSpaces`
      (nothing but whitespace is dropped) this characterises `Words`
      independently of its definition. */
  lemma SingleWord(s: string)
    requires IsWord(s)
    ensures Words(s) == [s]
  {
    assert WordEnd(s) == |s|;
    assert s[..|s|] == s && s[|s|..] == [];
  }

  /** Every whitespace character splits like a plain space. */
  lemma AnySpaceSplitsLikeSpace(a: string, c: char, b: string)
    requires IsSpace(c)
    ensures Words(a + [c] + b) == Words(a + " " + b)
  {
    WordsSplitAtSpace(a, c, b);
    WordsSplitAtSpace(a, ' ', b);
  }

  /** Lowercasing works character by character, so it distributes over `+`. */
  lemma LowerAppend(a: string, b: string)
    ensures Lower(a + b) == Lower(a) + Lower(b)
  {
  }

  /** `s` uses only single interior spaces `' '` as whitespace: no leading,
      trailing or doubled space, and no other whitespace character. */
  predicate SingleSpaced(s: string)
  {
    && (forall i :: 0 <= i < |s| && IsSpace(s[i]) ==> s[i] == ' ')
    && (forall i :: 0 <= i < |s| && s[i] == ' ' ==> 0 < i < |s| - 1 && s[i + 1] != ' ')
  }

  /** For a single-spaced string, `sep.join(s.split())` is `s` with each space
      replaced by `sep`. */
  lemma {:induction false} JoinWordsOfSingleSpaced(s: string, sep: char)
    requires SingleSpaced(s)
    ensures Join([sep], Words(s)) == Replace(s, ' ', sep)
    decreases |s|
  {
    if s != [] {
      var k := WordEnd(s);
      var w := s[..k];
      if k == |s| {
        assert s[k..] == [] && w == s;
        assert Words(s) == [w] + Words([]);
        ReplaceNoMatch(s, ' ', sep);
      } else {
        var t := s[k + 1..];
        SingleSpacedAfterSpace(s, k);
        JoinWordsOfSingleSpaced(t, sep);
        assert s[k..][1..] == t;
        var ws := Words(t);
        assert |ws| >= 1 by {
          assert t[0] != ' ' && !IsSpace(t[0]);
        }
        assert Words(s) == [w] + ws;
        assert Join([sep], Words(s)) == w + [sep] + Join([sep], ws);
        ReplaceNoMatch(w, ' ', sep);
        ReplaceAroundOne(w, t, ' ', sep);
        assert s == w + [' '] + t;
      }
    }
  }

  lemma SingleSpacedAfterSpace(s: string, k: nat)
    requires SingleSpaced(s)
    requires k < |s| && IsSpace(s[k])
    ensures s[k] == ' ' && 0 < k < |s| - 1
    ensures SingleSpaced(s[k + 1..])
    ensures !IsSpace(s[k + 1])
  {
    var t := s[k + 1..];
    forall i | 0 <= i < |t| && t[i] == ' '
      ensures 0 < i < |t| - 1 && t[i + 1] != ' '
    {
      assert s[k + 1 + i] == ' ';
    }
  }

  lemma ReplaceNoMatch(s: string, c: char, d: char)
    requires forall i :: 0 <= i < |s| ==> s[i] != c
    ensures Replace(s, c, d) == s
  {
  }

  lemma ReplaceAroundOne(a: string, b: string, c: char, d: char)
    ensures Replace(a + [c] + b, c, d) == Replace(a, c, d) + [d] + Replace(b, c, d)
  {
  }
}
