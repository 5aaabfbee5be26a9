/** The .NET string and path operations the renamer relies on, over `seq<char>`.
    Comparisons are ordinal (case-sensitive, char by char) except for
    `EndsWithIgnoreCase`, which folds ASCII letters. */
module Strings {

  /** `s.StartsWith(p)`, ordinal. */
  predicate StartsWith(s: string, p: string)
  {
    |p| <= |s| && s[..|p|] == p
  }

  /** `o` occurs in `s` at index `i`. */
  predicate OccursAt(s: string, o: string, i: int)
  {
    0 <= i && i + |o| <= |s| && s[i..i + |o|] == o
  }

  /** `s.Contains(o)`, ordinal: a match is tried at every start position. */
  predicate Contains(s: string, o: string)
    ensures Contains(s, o) ==> |o| <= |s|
    decreases |s|
  {
    StartsWith(s, o) || (s != [] && Contains(s[1..], o))
  }

  /** The scanning definition of `Contains` agrees with "there is an index where `o` occurs". */
  lemma {:induction false} ContainsIffOccursAt(s: string, o: string)
    ensures Contains(s, o) <==> exists i :: OccursAt(s, o, i)
    decreases |s|
  {
    if StartsWith(s, o) {
      assert OccursAt(s, o, 0);
    }
    if OccursAt(s, o, 0) {
      assert s[..|o|] == s[0..|o|];
    }
    if s != [] {
      ContainsIffOccursAt(s[1..], o);
      forall i | OccursAt(s[1..], o, i)
        ensures OccursAt(s, o, i + 1)
      {
        assert s[1..][i..i + |o|] == s[i + 1..i + 1 + |o|];
      }
      forall i | OccursAt(s, o, i) && i > 0
        ensures OccursAt(s[1..], o, i - 1)
      {
        assert s[1..][i - 1..i - 1 + |o|] == s[i..i + |o|];
      }
    }
  }

  /** A string shorter than `o` cannot contain it. */
  lemma {:induction false} ShortNotContains(x: string, o: string)
    requires |x| < |o|
    ensures !Contains(x, o)
    decreases |x|
  {
    if x != [] {
      ShortNotContains(x[1..], o);
    }
  }

  /** Putting a character in front keeps an occurrence. */
  lemma ContainsCons(c: char, x: string, o: string)
    ensures Contains(x, o) ==> Contains([c] + x, o)
  {
    assert ([c] + x)[1..] == x;
  }

  /** Appending text keeps a prefix. */
  lemma StartsWithExtend(x: string, y: string, o: string)
    requires StartsWith(x, o)
    ensures StartsWith(x + y, o)
  {
    assert (x + y)[..|o|] == x[..|o|];
  }

  /** Appending text keeps an occurrence. */
  lemma {:induction false} ContainsExtend(x: string, y: string, o: string)
    requires Contains(x, o)
    ensures Contains(x + y, o)
    decreases |x|
  {
    if StartsWith(x, o) {
      StartsWithExtend(x, y, o);
    } else {
      ContainsExtend(x[1..], y, o);
      assert (x + y)[1..] == x[1..] + y;
    }
  }

  /** A string lacking some character of `o` cannot contain `o`. */
  lemma MissingCharNotContains(s: string, o: string, c: char)
    requires c in o && c !in s
    ensures !Contains(s, o)
  {
    ContainsIffOccursAt(s, o);
  }

  /** `String.Join(sep, parts)`. */
  function Join(parts: seq<string>, sep: string): string
    decreases |parts|
  {
    if parts == [] then []
    else if |parts| == 1 then parts[0]
    else parts[0] + sep + Join(parts[1..], sep)
  }

  /** A character put in front of the first part ends up in front of the joined text. */
  lemma JoinPrepend(c: char, parts: seq<string>, sep: string)
    requires parts != []
    ensures Join([[c] + parts[0]] + parts[1..], sep) == [c] + Join(parts, sep)
  {
    var q := [[c] + parts[0]] + parts[1..];
    if |parts| > 1 {
      assert q[1..] == parts[1..];
    }
  }

  /** Sum of the lengths of `parts`. */
  function TotalLength(parts: seq<string>): nat
    decreases |parts|
  {
    if parts == [] then 0 else |parts[0]| + TotalLength(parts[1..])
  }

  /** Joining `n` parts inserts exactly `n - 1` separators. */
  lemma {:induction false} JoinLength(parts: seq<string>, sep: string)
    requires parts != []
    ensures |Join(parts, sep)| == TotalLength(parts) + (|parts| - 1) * |sep|
    decreases |parts|
  {
    if |parts| > 1 {
      JoinLength(parts[1..], sep);
      assert (|parts| - 1) * |sep| == (|parts| - 2) * |sep| + |sep|;
    }
  }

  /** `s.Split(new[] { sep }, StringSplitOptions.None)` for a non-empty separator:
      the text between the leftmost, non-overlapping occurrences of `sep`. */
  function Split(s: string, sep: string): (parts: seq<string>)
    requires sep != []
    ensures parts != []
    decreases |s|
  {
    if StartsWith(s, sep) then [[]] + Split(s[|sep|..], sep)
    else if s == [] then [[]]
    else
      var rest := Split(s[1..], sep);
      [[s[0]] + rest[0]] + rest[1..]
  }

  /** No occurrence of `sep` begins inside a part: every part but the last,
      followed by all but the last character of `sep`, is free of `sep`, and
      so is the last part. This is what "leftmost, non-overlapping" means. */
  predicate SeparatedLeftmost(parts: seq<string>, sep: string)
    requires sep != []
  {
    && parts != []
    && (forall i :: 0 <= i < |parts| - 1 ==> !Contains(parts[i] + sep[..|sep| - 1], sep))
    && !Contains(parts[|parts| - 1], sep)
  }

  /** Joining the parts of a split with the same separator gives back the input. */
  lemma {:induction false} SplitJoin(s: string, sep: string)
    requires sep != []
    ensures Join(Split(s, sep), sep) == s
    decreases |s|
  {
    if StartsWith(s, sep) {
      var rest := Split(s[|sep|..], sep);
      SplitJoin(s[|sep|..], sep);
      var parts := [[]] + rest;
      assert parts[0] == [] && parts[1..] == rest;
      assert Join(parts, sep) == [] + sep + Join(rest, sep);
      assert [] + sep == sep;
      assert s == sep + s[|sep|..];
    } else if s != [] {
      SplitJoin(s[1..], sep);
      JoinPrepend(s[0], Split(s[1..], sep), sep);
      assert [s[0]] + s[1..] == s;
    }
  }

  /** A non-empty prefix `x` of a string that does not start with `o` contains
      `o` only if `x` without its first character does. */
  lemma PrefixNotContains(x: string, z: string, o: string)
    requires x != [] && !StartsWith(x + z, o) && !Contains(x[1..], o)
    ensures !Contains(x, o)
  {
    if StartsWith(x, o) {
      StartsWithExtend(x, z, o);
    }
  }

  lemma Assoc(a: string, b: string, c: string)
    ensures a + (b + c) == a + b + c
  {
  }

  /** A character put in front of the first of several parts, that part
      followed by all but the last character of the separator, is free of the
      separator when the joined text does not start with it. */
  lemma FirstPartLeftmost(c: char, rest: seq<string>, sep: string)
    requires sep != [] && |rest| > 1
    requires !StartsWith([c] + Join(rest, sep), sep)
    requires !Contains(rest[0] + sep[..|sep| - 1], sep)
    ensures !Contains([c] + rest[0] + sep[..|sep| - 1], sep)
  {
    FirstPartSplice(c, rest, sep);
    PrefixNotContains([c] + rest[0] + sep[..|sep| - 1], [sep[|sep| - 1]] + Join(rest[1..], sep), sep);
  }

  /** The joined text, cut after the first part and all but the last
      character of the separator. */
  lemma FirstPartSplice(c: char, rest: seq<string>, sep: string)
    requires sep != [] && |rest| > 1
    ensures ([c] + rest[0] + sep[..|sep| - 1]) + ([sep[|sep| - 1]] + Join(rest[1..], sep)) == [c] + Join(rest, sep)
    ensures ([c] + rest[0] + sep[..|sep| - 1])[1..] == rest[0] + sep[..|sep| - 1]
  {
    var init, last := sep[..|sep| - 1], [sep[|sep| - 1]];
    var p, j := rest[0], Join(rest[1..], sep);
    var x := [c] + p + init;
    assert sep == init + last;
    assert Join(rest, sep) == p + sep + j;
    calc {
      x + (last + j);
    == { Assoc(x, last, j); }
      ([c] + p + init + last) + j;
    == { Assoc([c] + p, init, last); }
      ([c] + p + sep) + j;
    == { Assoc([c], p, sep); }
      ([c] + (p + sep)) + j;
    == { Assoc([c], p + sep, j); }
      [c] + Join(rest, sep);
    }
    assert x[1..] == p + init;
  }

  /** The split cuts at the leftmost occurrences of the separator. */
  lemma {:induction false} SplitLeftmost(s: string, sep: string)
    requires sep != []
    ensures SeparatedLeftmost(Split(s, sep), sep)
    decreases |s|
  {
    var parts := Split(s, sep);
    var init := sep[..|sep| - 1];
    if StartsWith(s, sep) {
      var rest := Split(s[|sep|..], sep);
      SplitLeftmost(s[|sep|..], sep);
      assert parts == [[]] + rest;
      ShortNotContains(init, sep);
      assert [] + init == init;
      forall i | 0 <= i < |parts| - 1
        ensures !Contains(parts[i] + init, sep)
      {
        if i > 0 {
          assert parts[i] == rest[i - 1];
        }
      }
    } else if s == [] {
      ShortNotContains([], sep);
    } else {
      var rest := Split(s[1..], sep);
      SplitLeftmost(s[1..], sep);
      assert parts == [[s[0]] + rest[0]] + rest[1..];
      if |rest| == 1 {
        SplitJoin(s[1..], sep);
        assert s[1..] == rest[0];
        assert parts[0] == s;
      } else {
        SplitJoin(s[1..], sep);
        assert s == [s[0]] + Join(rest, sep);
        FirstPartLeftmost(s[0], rest, sep);
        forall i | 0 <= i < |parts| - 1
          ensures !Contains(parts[i] + init, sep)
        {
          if i > 0 {
            assert parts[i] == rest[i];
          }
        }
        assert parts[|parts| - 1] == rest[|rest| - 1];
      }
    }
  }

  /** `Split` is the only way to cut `s` at leftmost occurrences of `sep`. */
  lemma {:induction false} SplitUnique(s: string, parts: seq<string>, sep: string)
    requires sep != []
    requires SeparatedLeftmost(parts, sep)
    requires Join(parts, sep) == s
    ensures Split(s, sep) == parts
    decreases |s|
  {
    if parts[0] == [] {
      if |parts| == 1 {
        assert s == [];
      } else {
        LeadingSeparator(s, parts, sep);
        SplitUnique(s[|sep|..], parts[1..], sep);
      }
    } else {
      var parts' := [parts[0][1..]] + parts[1..];
      LeadingCharacter(s, parts, sep);
      SplitUnique(s[1..], parts', sep);
    }
  }

  /** Leftmost parts whose first part is empty: `s` starts with the
      separator, and the other parts cut the rest of `s`. */
  lemma LeadingSeparator(s: string, parts: seq<string>, sep: string)
    requires sep != [] && |parts| > 1 && parts[0] == []
    requires SeparatedLeftmost(parts, sep)
    requires Join(parts, sep) == s
    ensures StartsWith(s, sep)
    ensures SeparatedLeftmost(parts[1..], sep) && Join(parts[1..], sep) == s[|sep|..]
    ensures parts == [[]] + parts[1..]
  {
    var init := sep[..|sep| - 1];
    var tail := parts[1..];
    assert s == [] + sep + Join(tail, sep);
    assert s[|sep|..] == Join(tail, sep);
    forall i | 0 <= i < |tail| - 1
      ensures !Contains(tail[i] + init, sep)
    {
      assert tail[i] == parts[i + 1];
    }
    assert tail[|tail| - 1] == parts[|parts| - 1];
  }

  /** Leftmost parts whose first part is not empty: `s` does not start with
      the separator, and dropping the first character of the first part cuts
      the rest of `s`. */
  lemma LeadingCharacter(s: string, parts: seq<string>, sep: string)
    requires sep != [] && parts != [] && parts[0] != []
    requires SeparatedLeftmost(parts, sep)
    requires Join(parts, sep) == s
    ensures s != [] && s[0] == parts[0][0] && !StartsWith(s, sep)
    ensures SeparatedLeftmost([parts[0][1..]] + parts[1..], sep)
    ensures Join([parts[0][1..]] + parts[1..], sep) == s[1..]
    ensures [[s[0]] + parts[0][1..]] + parts[1..] == parts
  {
    var init := sep[..|sep| - 1];
    var p0 := parts[0];
    var c := p0[0];
    var q := p0[1..];
    var parts' := [q] + parts[1..];
    assert p0 == [c] + q;
    assert [[c] + q] + parts[1..] == parts;
    assert parts'[0] == q && parts'[1..] == parts[1..];
    JoinPrepend(c, parts', sep);
    assert s == [c] + Join(parts', sep);
    if |parts| == 1 {
      assert s == p0;
      ContainsCons(c, q, sep);
    } else {
      assert [c] + q + init == parts[0] + init;
      LeadingCharacterCut(c, parts', sep, s);
    }
    forall i | 0 <= i < |parts'| - 1
      ensures !Contains(parts'[i] + init, sep)
    {
      if i > 0 {
        assert parts'[i] == parts[i];
      }
    }
    assert parts'[|parts'| - 1] == parts[|parts| - 1] || |parts| == 1;
    assert s[1..] == Join(parts', sep);
  }

  /** The first of several leftmost parts, `[c] + q`, keeps `s` from starting
      with the separator, and `q` is leftmost too. */
  lemma LeadingCharacterCut(c: char, rest: seq<string>, sep: string, s: string)
    requires sep != [] && |rest| > 1
    requires !Contains([c] + rest[0] + sep[..|sep| - 1], sep)
    requires s == [c] + Join(rest, sep)
    ensures !StartsWith(s, sep) && !Contains(rest[0] + sep[..|sep| - 1], sep)
  {
    var x := [c] + rest[0] + sep[..|sep| - 1];
    FirstPartSplice(c, rest, sep);
    if StartsWith(s, sep) {
      StartsWithPrefix(x, [sep[|sep| - 1]] + Join(rest[1..], sep), sep);
    }
  }

  /** A prefix at least as long as `o` starts with `o` when the whole does. */
  lemma StartsWithPrefix(x: string, z: string, o: string)
    requires StartsWith(x + z, o) && |o| <= |x|
    ensures StartsWith(x, o)
  {
    assert (x + z)[..|o|] == x[..|o|];
  }

  /** Every part of a split is free of the separator. */
  lemma SplitPartsAvoidSeparator(s: string, sep: string)
    requires sep != []
    ensures forall t :: t in Split(s, sep) ==> !Contains(t, sep)
  {
    var parts := Split(s, sep);
    SplitLeftmost(s, sep);
    forall i | 0 <= i < |parts| - 1
      ensures !Contains(parts[i], sep)
    {
      if Contains(parts[i], sep) {
        ContainsExtend(parts[i], sep[..|sep| - 1], sep);
      }
    }
  }

  /** The empty entries dropped from `parts`, order kept: the result holds
      exactly the non-empty entries, and `RemoveEmptyAppend` fixes their order. */
  function RemoveEmpty(parts: seq<string>): (r: seq<string>)
    ensures forall t :: t in r ==> t != [] && t in parts
    ensures forall t :: t in parts && t != [] ==> t in r
    decreases |parts|
  {
    if parts == [] then []
    else if parts[0] == [] then RemoveEmpty(parts[1..])
    else [parts[0]] + RemoveEmpty(parts[1..])
  }

  /** Dropping empty entries works piece by piece, so the kept entries stay
      in their order. */
  lemma {:induction false} RemoveEmptyAppend(a: seq<string>, b: seq<string>)
    ensures RemoveEmpty(a + b) == RemoveEmpty(a) + RemoveEmpty(b)
    decreases |a|
  {
    if a != [] {
      assert (a + b)[0] == a[0];
      assert (a + b)[1..] == a[1..] + b;
      RemoveEmptyAppend(a[1..], b);
    } else {
      assert a + b == b;
    }
  }

  /** Removing empty entries from a list that has none changes nothing. */
  lemma {:induction false} RemoveEmptyNoEmpty(parts: seq<string>)
    requires forall i :: 0 <= i < |parts| ==> parts[i] != []
    ensures RemoveEmpty(parts) == parts
    decreases |parts|
  {
    if parts != [] {
      RemoveEmptyNoEmpty(parts[1..]);
    }
  }

  /** `s.Split(new[] { sep }, StringSplitOptions.RemoveEmptyEntries)`: the
      tokens are non-empty and never contain the separator. */
  function SplitRemovingEmpty(s: string, sep: string): (tokens: seq<string>)
    requires sep != []
    ensures forall t :: t in tokens ==> t != [] && !Contains(t, sep)
  {
    SplitPartsAvoidSeparator(s, sep);
    RemoveEmpty(Split(s, sep))
  }

  /** A string free of the separator is one token, or none when it is empty. */
  lemma SplitRemovingEmptyWhole(s: string, sep: string)
    requires sep != []
    ensures !Contains(s, sep) ==> SplitRemovingEmpty(s, sep) == if s == [] then [] else [s]
  {
    if !Contains(s, sep) {
      SplitUnique(s, [s], sep);
      assert Split(s, sep) == [s];
      assert [s][1..] == [];
      assert RemoveEmpty([s]) == if s == [] then [] else [s] + RemoveEmpty([]);
    }
  }

  /** With a one-character separator, separator-free parts are leftmost. */
  lemma OneCharLeftmost(parts: seq<string>, sep: string)
    requires |sep| == 1 && parts != []
    requires forall i :: 0 <= i < |parts| ==> !Contains(parts[i], sep)
    ensures SeparatedLeftmost(parts, sep)
  {
    assert sep[..|sep| - 1] == [];
    forall i | 0 <= i < |parts| - 1
      ensures !Contains(parts[i] + sep[..|sep| - 1], sep)
    {
      assert parts[i] + sep[..|sep| - 1] == parts[i];
    }
  }

  /** Round trip for a one-character separator: splitting the join of
      non-empty, separator-free tokens gives the tokens back. */
  lemma SplitJoinRoundTrip(tokens: seq<string>, sep: string)
    requires |sep| == 1
    requires forall i :: 0 <= i < |tokens| ==> tokens[i] != [] && !Contains(tokens[i], sep)
    ensures SplitRemovingEmpty(Join(tokens, sep), sep) == tokens
  {
    var j := Join(tokens, sep);
    if tokens == [] {
      SplitUnique(j, [[]], sep);
    } else {
      OneCharLeftmost(tokens, sep);
      SplitUnique(j, tokens, sep);
      RemoveEmptyNoEmpty(tokens);
    }
  }

  /** `s.Replace(oldValue, newValue)`: every leftmost, non-overlapping
      occurrence of `oldValue` is replaced. .NET refuses an empty `oldValue`. */
  function Replace(s: string, oldValue: string, newValue: string): (r: string)
    requires oldValue != []
    ensures !Contains(s, oldValue) ==> r == s
    decreases |s|
  {
    if StartsWith(s, oldValue) then newValue + Replace(s[|oldValue|..], oldValue, newValue)
    else if s == [] then []
    else [s[0]] + Replace(s[1..], oldValue, newValue)
  }

  /** Replacing is splitting at `oldValue` and joining with `newValue`. */
  lemma {:induction false} ReplaceIsSplitJoin(s: string, oldValue: string, newValue: string)
    requires oldValue != []
    ensures Replace(s, oldValue, newValue) == Join(Split(s, oldValue), newValue)
    decreases |s|
  {
    if StartsWith(s, oldValue) {
      var rest := Split(s[|oldValue|..], oldValue);
      ReplaceIsSplitJoin(s[|oldValue|..], oldValue, newValue);
      assert ([[]] + rest)[1..] == rest;
    } else if s != [] {
      ReplaceIsSplitJoin(s[1..], oldValue, newValue);
      JoinPrepend(s[0], Split(s[1..], oldValue), newValue);
    }
  }

  /** How many occurrences `Replace` substitutes. */
  function Occurrences(s: string, o: string): nat
    requires o != []
  {
    |Split(s, o)| - 1
  }

  /** Some occurrence is replaced exactly when `o` occurs at all. */
  lemma OccurrencesIffContains(s: string, o: string)
    requires o != []
    ensures Occurrences(s, o) > 0 <==> Contains(s, o)
  {
    SplitJoin(s, o);
    SplitLeftmost(s, o);
    if !Contains(s, o) {
      SplitUnique(s, [s], o);
    }
  }

  /** Each replaced occurrence changes the length by `|newValue| - |oldValue|`. */
  lemma ReplaceLength(s: string, oldValue: string, newValue: string)
    requires oldValue != []
    ensures |Replace(s, oldValue, newValue)| == |s| + Occurrences(s, oldValue) * (|newValue| - |oldValue|)
  {
    var parts := Split(s, oldValue);
    var k := |parts| - 1;
    ReplaceIsSplitJoin(s, oldValue, newValue);
    SplitJoin(s, oldValue);
    JoinLength(parts, oldValue);
    JoinLength(parts, newValue);
    assert k * (|newValue| - |oldValue|) == k * |newValue| - k * |oldValue|;
  }

  /** Replacing a string by itself changes nothing. */
  lemma ReplaceBySelf(s: string, oldValue: string)
    requires oldValue != []
    ensures Replace(s, oldValue, oldValue) == s
  {
    ReplaceIsSplitJoin(s, oldValue, oldValue);
    SplitJoin(s, oldValue);
  }

  /** An occurrence replaced by different text of another length changes the length. */
  lemma ReplaceChangesLength(s: string, oldValue: string, newValue: string)
    requires oldValue != [] && Contains(s, oldValue) && |newValue| != |oldValue|
    ensures |Replace(s, oldValue, newValue)| != |s|
  {
    OccurrencesIffContains(s, oldValue);
    ReplaceLength(s, oldValue, newValue);
    ProductNonZero(Occurrences(s, oldValue), |newValue| - |oldValue|);
  }

  lemma ProductNonZero(k: int, d: int)
    requires k >= 1 && d != 0
    ensures k * d != 0
  {
    if d > 0 {
      assert k * d >= d;
    } else {
      assert k * -d >= -d;
    }
  }

  /** The first replaced occurrence shows in the result when `newValue`
      differs from `oldValue` but has its length. */
  lemma ReplaceChangesText(s: string, oldValue: string, newValue: string)
    requires oldValue != [] && Contains(s, oldValue)
    requires |newValue| == |oldValue| && newValue != oldValue
    ensures Replace(s, oldValue, newValue) != s
  {
    var parts := Split(s, oldValue);
    ReplaceIsSplitJoin(s, oldValue, newValue);
    SplitJoin(s, oldValue);
    OccurrencesIffContains(s, oldValue);
    var r := Replace(s, oldValue, newValue);
    var p0 := parts[0];
    var a := Join(parts[1..], newValue);
    var b := Join(parts[1..], oldValue);
    assert r == p0 + newValue + a;
    assert s == p0 + oldValue + b;
    assert r[|p0|..|p0| + |newValue|] == newValue;
    assert s[|p0|..|p0| + |oldValue|] == oldValue;
  }

  /** `Replace` leaves `s` as it is exactly when `oldValue` does not occur
      in it or is replaced by itself. */
  lemma ReplaceUnchangedIff(s: string, oldValue: string, newValue: string)
    requires oldValue != []
    ensures Replace(s, oldValue, newValue) == s <==> (!Contains(s, oldValue) || newValue == oldValue)
  {
    if !Contains(s, oldValue) {
    } else if newValue == oldValue {
      ReplaceBySelf(s, oldValue);
    } else if |newValue| != |oldValue| {
      ReplaceChangesLength(s, oldValue, newValue);
    } else {
      ReplaceChangesText(s, oldValue, newValue);
    }
  }

  /** A single occurrence, with no other occurrence starting before or after
      it, is the one replaced. */
  lemma ReplaceSingleOccurrence(p: string, q: string, oldValue: string, newValue: string)
    requires oldValue != []
    requires !Contains(p + oldValue[..|oldValue| - 1], oldValue) && !Contains(q, oldValue)
    ensures Replace(p + oldValue + q, oldValue, newValue) == p + newValue + q
  {
    var s := p + oldValue + q;
    assert Join([p, q], oldValue) == s;
    assert Join([p, q], newValue) == p + newValue + q;
    SplitUnique(s, [p, q], oldValue);
    ReplaceIsSplitJoin(s, oldValue, newValue);
  }

  /** ASCII `char.ToLowerInvariant`. */
  function ToLowerAscii(c: char): char
  {
    if 'A' <= c <= 'Z' then (c as int + 32) as char else c
  }

  /** Every character of `s` lower-cased. */
  function ToLower(s: string): string
  {
    seq(|s|, i requires 0 <= i < |s| => ToLowerAscii(s[i]))
  }

  /** `s.EndsWith(suffix, StringComparison.InvariantCultureIgnoreCase)`,
      with ASCII case folding. */
  predicate EndsWithIgnoreCase(s: string, suffix: string)
    ensures EndsWithIgnoreCase(s, suffix) ==> |suffix| <= |s|
    ensures |suffix| <= |s| && s[|s| - |suffix|..] == suffix ==> EndsWithIgnoreCase(s, suffix)
  {
    |suffix| <= |s| && ToLower(s[|s| - |suffix|..]) == ToLower(suffix)
  }

  /** Ignoring case is comparing the lower-cased strings: `s` ends with
      `suffix` ignoring case exactly when `ToLower(s)` is `ToLower(suffix)`
      with some text in front. */
  lemma EndsWithIgnoreCaseIff(s: string, suffix: string)
    ensures EndsWithIgnoreCase(s, suffix) <==> exists u :: ToLower(s) == u + ToLower(suffix)
  {
    var ls := ToLower(s);
    if EndsWithIgnoreCase(s, suffix) {
      var u := ls[..|s| - |suffix|];
      assert ls == u + ToLower(suffix);
    }
    if u :| ls == u + ToLower(suffix) {
      assert |suffix| <= |s|;
      assert ToLower(s[|s| - |suffix|..]) == ls[|s| - |suffix|..];
    }
  }

  /** `s.LastIndexOf(c)`: the index of the last `c` in `s`, or -1. */
  function LastIndexOf(s: string, c: char): (r: int)
    ensures -1 <= r < |s|
    ensures r >= 0 ==> s[r] == c
    ensures forall j :: r < j < |s| ==> s[j] != c
    decreases |s|
  {
    if s == [] then -1
    else if s[|s| - 1] == c then |s| - 1
    else LastIndexOf(s[..|s| - 1], c)
  }

  /** `FileInfo.Extension` of a file called `name`: the text from the last '.'
      to the end, dot included; "" when the name has no '.' or ends with it. */
  function Extension(name: string): (e: string)
    ensures e == [] <==> ('.' !in name || name[|name| - 1] == '.')
    ensures e != [] ==> 2 <= |e| <= |name| && e[0] == '.' && e == name[|name| - |e|..]
    ensures forall j :: 1 <= j < |e| ==> e[j] != '.'
  {
    var i := LastIndexOf(name, '.');
    if i < 0 || i == |name| - 1 then [] else name[i..]
  }

  /** The extension of `stem.ext` is `.ext` when `ext` is non-empty and has no '.'. */
  lemma ExtensionOf(stem: string, ext: string)
    requires ext != [] && '.' !in ext
    ensures Extension(stem + "." + ext) == "." + ext
  {
    var name := stem + "." + ext;
    var i := LastIndexOf(name, '.');
    assert name[|stem|] == '.';
    assert name[|stem|..] == "." + ext;
  }
}
