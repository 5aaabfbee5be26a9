/** The renamer's behaviour on concrete names, derived from the general
    lemmas. */
module Examples {
  import opened Strings
  import opened Renamer

  /** Every occurrence is replaced, scanning from the left without overlaps. */
  lemma ReplaceAllOccurrences()
    ensures Replace("aa", "a", "bb") == "bbbb"
    ensures Replace("aaa", "aa", "b") == "ba"
  {
  }

  /** Each rule acts on the result of the previous one, so the order of the
      rules matters. */
  lemma ChainedRules()
    ensures ApplyReplacements("ab", [Pair("a", "b"), Pair("b", "c")]) == "cc"
    ensures ApplyReplacements("ab", [Pair("b", "c"), Pair("a", "b")]) == "bc"
  {
    assert "ab"[1..] == "b";
    assert Replace("ab", "a", "b") == "bb";
    assert Replace("ab", "b", "c") == "ac";
    assert Replace("ac", "a", "b") == "bc";
    var forward := [Pair("a", "b"), Pair("b", "c")];
    assert forward[1..] == [Pair("b", "c")];
    assert forward[1..][1..] == [];
    var backward := [Pair("b", "c"), Pair("a", "b")];
    assert backward[1..] == [Pair("a", "b")];
    assert backward[1..][1..] == [];
  }

  /** On concrete names: "foo_baz.txt" with the rules foo→bar and
      baz→qux becomes "bar_qux.txt". */
  lemma FooBazExample()
    ensures ApplyReplacements("foo_baz.txt", [Pair("foo", "bar"), Pair("baz", "qux")]) == "bar_qux.txt"
  {
    var pairs := [Pair("foo", "bar"), Pair("baz", "qux")];
    ReplaceFoo();
    ReplaceBaz();
    assert pairs[1..] == [Pair("baz", "qux")];
    assert pairs[1..][1..] == [];
  }

  lemma ReplaceFoo()
    ensures Replace("foo_baz.txt", "foo", "bar") == "bar_baz.txt"
  {
    FooSpelling();
    ShortNotContains("fo", "foo");
    MissingCharNotContains("_baz.txt", "foo", 'f');
    ReplaceSingleOccurrence("", "_baz.txt", "foo", "bar");
  }

  lemma FooSpelling()
    ensures "" + "foo"[..2] == "fo"
    ensures "" + "foo" + "_baz.txt" == "foo_baz.txt"
    ensures "" + "bar" + "_baz.txt" == "bar_baz.txt"
  {
  }

  lemma ReplaceBaz()
    ensures Replace("bar_baz.txt", "baz", "qux") == "bar_qux.txt"
  {
    BazSpelling();
    MissingCharNotContains("bar_ba", "baz", 'z');
    MissingCharNotContains(".txt", "baz", 'b');
    ReplaceSingleOccurrence("bar_", ".txt", "baz", "qux");
  }

  lemma BazSpelling()
    ensures "bar_" + "baz"[..2] == "bar_ba"
    ensures "bar_" + "baz" + ".txt" == "bar_baz.txt"
    ensures "bar_" + "qux" + ".txt" == "bar_qux.txt"
  {
  }

  lemma CommaFreeTokens()
    ensures !Contains("a", COMMA) && !Contains("b", COMMA)
    ensures !Contains("c", COMMA) && !Contains("d", COMMA)
  {
    MissingCharNotContains("a", COMMA, ',');
    MissingCharNotContains("b", COMMA, ',');
    MissingCharNotContains("c", COMMA, ',');
    MissingCharNotContains("d", COMMA, ',');
  }

  /** Tokens are grouped two by two, in order. */
  lemma ParseInOrder()
    ensures ParseReplacements("a,b,c,d") == Ok([Pair("a", "b"), Pair("c", "d")])
  {
    var pairs := [Pair("a", "b"), Pair("c", "d")];
    CommaFreeTokens();
    ParseReplacementsRoundTrip(pairs);
    assert pairs[1..] == [Pair("c", "d")];
    assert Flatten(pairs) == ["a", "b", "c", "d"];
    JoinSpelling();
  }

  lemma JoinSpelling()
    ensures Join(["a", "b", "c", "d"], COMMA) == "a,b,c,d"
    ensures Join(["a", "b", "c"], COMMA) == "a,b,c"
  {
    var tokens := ["a", "b", "c", "d"];
    assert tokens[1..] == ["b", "c", "d"];
    assert tokens[1..][1..] == ["c", "d"];
    assert tokens[1..][1..][1..] == ["d"];
    assert Join(["c", "d"], COMMA) == "c,d";
    assert Join(["b", "c", "d"], COMMA) == "b,c,d";
    var odd := ["a", "b", "c"];
    assert odd[1..] == ["b", "c"];
    assert odd[1..][1..] == ["c"];
    assert Join(["b", "c"], COMMA) == "b,c";
  }

  /** Empty entries between, before and after commas are dropped. */
  lemma EmptyEntriesDropped()
    ensures Tokens(",a,,b,") == ["a", "b"]
  {
    var parts := ["", "a", "", "b", ""];
    CommaFreeTokens();
    ShortNotContains("", COMMA);
    OneCharLeftmost(parts, COMMA);
    EmptyEntriesSpelling();
    SplitUnique(",a,,b,", parts, COMMA);
  }

  lemma EmptyEntriesSpelling()
    ensures Join(["", "a", "", "b", ""], COMMA) == ",a,,b,"
    ensures RemoveEmpty(["", "a", "", "b", ""]) == ["a", "b"]
  {
    var parts := ["", "a", "", "b", ""];
    assert parts[1..] == ["a", "", "b", ""];
    assert parts[2..] == ["", "b", ""];
    assert parts[3..] == ["b", ""];
    assert parts[4..] == [""];
    assert parts[1..][1..] == parts[2..] && parts[2..][1..] == parts[3..] && parts[3..][1..] == parts[4..];
    assert Join(parts[3..], COMMA) == "b,";
    assert Join(parts[2..], COMMA) == ",b,";
    assert Join(parts[1..], COMMA) == "a,,b,";
    assert parts[4..][1..] == [];
    assert RemoveEmpty(parts[4..]) == [];
    assert RemoveEmpty(parts[3..]) == ["b"];
    assert RemoveEmpty(parts[2..]) == ["b"];
    assert RemoveEmpty(parts[1..]) == ["a", "b"];
  }

  /** An odd number of tokens is refused. */
  lemma ParseOddCount()
    ensures ParseReplacements("a,b,c") == Err(OddReplacementCount)
  {
    CommaFreeTokens();
    SplitJoinRoundTrip(["a", "b", "c"], COMMA);
    JoinSpelling();
  }

  /** The extension filter matches a suffix of the extension, ignoring case. */
  lemma SuffixOfExtensionAccepted()
    ensures HasAcceptedExtension("a.TXT", ["xt"])
  {
    ExtensionOf("a", "TXT");
    assert "a" + "." + "TXT" == "a.TXT";
    assert ToLower(".TXT"[2..]) == "xt";
  }

  lemma OtherExtensionRejected()
    ensures !HasAcceptedExtension("a.png", ["txt"])
  {
    ExtensionOf("a", "png");
    assert "a" + "." + "png" == "a.png";
    assert ToLower(".png"[1..])[0] == 'p';
  }

  /** A name without a '.' has no extension and is never accepted. */
  lemma NoExtensionRejected()
    ensures !HasAcceptedExtension("txt", ["txt"])
  {
    assert '.' !in "txt";
  }
}
