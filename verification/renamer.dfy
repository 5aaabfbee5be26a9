/** The helpers of the renamer's `Program` class: parsing the command line,
    the two file filters, and the sequential replacement of a file name. */
module Renamer {
  import opened Strings

  /** One replacement rule, `Tuple<string, string>` in the program: every
      occurrence of `oldValue` becomes `newValue`. */
  datatype Pair = Pair(oldValue: string, newValue: string)

  /** The two ways the command line is refused. */
  datatype ArgumentError =
    | TooFewArguments      // InvalidOperationException("Too few input arguments")
    | OddReplacementCount  // ArgumentException("String replacements count must be even")

  datatype Result<T> = Ok(value: T) | Err(error: ArgumentError)

  /** The parsed command line: root directory, extension filters, rules. */
  datatype Config = Config(filesDir: string, extensions: seq<string>, pairs: seq<Pair>)

  /** The separator of both list arguments. */
  const COMMA: string := ","

  /** The flat token list a list of rules is written as. */
  function Flatten(pairs: seq<Pair>): (tokens: seq<string>)
    ensures |tokens| == 2 * |pairs|
    decreases |pairs|
  {
    if pairs == [] then [] else [pairs[0].oldValue, pairs[0].newValue] + Flatten(pairs[1..])
  }

  /** Consecutive tokens grouped two by two, in order: the `GroupBy(index / 2)`
      of `ParseReplacements`. */
  function Pairs(tokens: seq<string>): (pairs: seq<Pair>)
    requires |tokens| % 2 == 0
    ensures |pairs| == |tokens| / 2
    ensures forall i :: 0 <= i < |pairs| ==> pairs[i] == Pair(tokens[2 * i], tokens[2 * i + 1])
    decreases |tokens|
  {
    if tokens == [] then []
    else
      var rest := Pairs(tokens[2..]);
      assert forall i :: 1 <= i < |rest| + 1 ==> tokens[2..][2 * (i - 1)] == tokens[2 * i];
      [Pair(tokens[0], tokens[1])] + rest
  }

  /** Grouping loses no token: flattening the pairs gives the tokens back. */
  lemma {:induction false} FlattenPairs(tokens: seq<string>)
    requires |tokens| % 2 == 0
    ensures Flatten(Pairs(tokens)) == tokens
    decreases |tokens|
  {
    if tokens != [] {
      FlattenPairs(tokens[2..]);
      var pairs := Pairs(tokens);
      assert pairs[1..] == Pairs(tokens[2..]);
      assert tokens == [tokens[0], tokens[1]] + tokens[2..];
    }
  }

  /** Grouping the flat form of a list of rules gives the list back. */
  lemma {:induction false} PairsFlatten(pairs: seq<Pair>)
    ensures Pairs(Flatten(pairs)) == pairs
    decreases |pairs|
  {
    if pairs != [] {
      PairsFlatten(pairs[1..]);
      var tokens := Flatten(pairs);
      assert tokens[2..] == Flatten(pairs[1..]);
      assert pairs == [pairs[0]] + pairs[1..];
    }
  }

  /** The tokens of a comma-separated list argument: non-empty and
      comma-free; an argument without a comma is a single token, or none
      when it is empty. */
  function Tokens(arg: string): (tokens: seq<string>)
    ensures forall t :: t in tokens ==> t != [] && !Contains(t, COMMA)
    ensures !Contains(arg, COMMA) ==> tokens == if arg == [] then [] else [arg]
  {
    SplitRemovingEmptyWhole(arg, COMMA);
    SplitRemovingEmpty(arg, COMMA)
  }

  /** Every rule has a non-empty, comma-free old and new string. */
  predicate WellFormed(pairs: seq<Pair>)
  {
    forall i :: 0 <= i < |pairs| ==>
      && pairs[i].oldValue != [] && !Contains(pairs[i].oldValue, COMMA)
      && pairs[i].newValue != [] && !Contains(pairs[i].newValue, COMMA)
  }

  /** `ParseReplacements`: an odd number of tokens is refused; otherwise the
      tokens are grouped in order into rules whose strings are non-empty. */
  function ParseReplacements(replacements: string): (r: Result<seq<Pair>>)
    ensures r.Err? <==> |Tokens(replacements)| % 2 != 0
    ensures r.Err? ==> r.error == OddReplacementCount
    ensures r.Ok? ==> Flatten(r.value) == Tokens(replacements) && WellFormed(r.value)
  {
    var tokens := Tokens(replacements);
    if |tokens| % 2 != 0 then Err(OddReplacementCount)
    else
      FlattenPairs(tokens);
      var pairs := Pairs(tokens);
      assert forall i :: 0 <= i < |pairs| ==> pairs[i].oldValue in tokens && pairs[i].newValue in tokens;
      Ok(pairs)
  }

  /** Writing well-formed rules as a comma-separated list and parsing it
      gives the same rules back. */
  lemma ParseReplacementsRoundTrip(pairs: seq<Pair>)
    requires WellFormed(pairs)
    ensures ParseReplacements(Join(Flatten(pairs), COMMA)) == Ok(pairs)
  {
    var tokens := Flatten(pairs);
    PairsFlatten(pairs);
    forall i | 0 <= i < |tokens|
      ensures tokens[i] != [] && !Contains(tokens[i], COMMA)
    {
      FlattenAt(pairs, i);
    }
    SplitJoinRoundTrip(tokens, COMMA);
  }

  /** Where each string of a rule sits in the flat list. */
  lemma {:induction false} FlattenAt(pairs: seq<Pair>, i: nat)
    requires i < 2 * |pairs|
    ensures Flatten(pairs)[i] == if i % 2 == 0 then pairs[i / 2].oldValue else pairs[i / 2].newValue
    decreases |pairs|
  {
    if i >= 2 {
      FlattenAt(pairs[1..], i - 2);
    }
  }

  /** The command line of `Main`: fewer than three arguments is refused
      before anything else is looked at; then the extension list is split
      and the rules are parsed. */
  function ParseArguments(args: seq<string>): (r: Result<Config>)
    ensures |args| < 3 ==> r == Err(TooFewArguments)
    ensures |args| >= 3 ==> (r.Ok? <==> ParseReplacements(args[2]).Ok?)
    ensures |args| >= 3 && r.Err? ==> r.error == OddReplacementCount
    ensures r.Ok? ==>
      && r.value.filesDir == args[0]
      && r.value.extensions == Tokens(args[1])
      && Flatten(r.value.pairs) == Tokens(args[2])
      && WellFormed(r.value.pairs)
  {
    if |args| < 3 then Err(TooFewArguments)
    else
      var extensions := Tokens(args[1]);
      match ParseReplacements(args[2])
      case Err(e) => Err(e)
      case Ok(pairs) => Ok(Config(args[0], extensions, pairs))
  }

  /** Every rule has a non-empty old string, as `String.Replace` demands. */
  predicate Replaceable(pairs: seq<Pair>)
  {
    forall i :: 0 <= i < |pairs| ==> pairs[i].oldValue != []
  }

  /** `HasAnythingToReplace`: some rule's old string occurs in the file name. */
  function HasAnythingToReplace(name: string, pairs: seq<Pair>): (r: bool)
    ensures r <==> exists i :: 0 <= i < |pairs| && Contains(name, pairs[i].oldValue)
    decreases |pairs|
  {
    if pairs == [] then false
    else Contains(name, pairs[0].oldValue) || HasAnythingToReplace(name, pairs[1..])
  }

  /** `HasAcceptedExtension`: some configured extension ends the file's
      extension, ignoring case; an empty list accepts nothing. */
  function HasAcceptedExtension(name: string, extensions: seq<string>): (r: bool)
    ensures r <==> exists i :: 0 <= i < |extensions| && EndsWithIgnoreCase(Extension(name), extensions[i])
    ensures extensions == [] ==> !r
    decreases |extensions|
  {
    if extensions == [] then false
    else EndsWithIgnoreCase(Extension(name), extensions[0]) || HasAcceptedExtension(name, extensions[1..])
  }

  /** The name `ReplaceCharacters` computes: each rule applied, in order, to
      the result of the previous ones. A name in which no rule's old string
      occurs comes out unchanged, so the `HasAnythingToReplace` filter drops
      only files whose name would stay. */
  function ApplyReplacements(name: string, pairs: seq<Pair>): (r: string)
    requires Replaceable(pairs)
    ensures !HasAnythingToReplace(name, pairs) ==> r == name
    decreases |pairs|
  {
    if pairs == [] then name
    else ApplyReplacements(Replace(name, pairs[0].oldValue, pairs[0].newValue), pairs[1..])
  }

  /** `ReplaceCharacters`: a loop that replaces, rule after rule, in the
      running file name. */
  method ReplaceCharacters(fileName: string, replacements: seq<Pair>) returns (result: string)
    requires Replaceable(replacements)
    ensures result == ApplyReplacements(fileName, replacements)
  {
    result := fileName;
    for i := 0 to |replacements|
      invariant ApplyReplacements(result, replacements[i..]) == ApplyReplacements(fileName, replacements)
    {
      assert replacements[i..][1..] == replacements[i + 1..];
      result := Replace(result, replacements[i].oldValue, replacements[i].newValue);
    }
    assert replacements[|replacements|..] == [];
  }

  /** Applying two lists of rules one after the other is applying their
      concatenation. */
  lemma {:induction false} ApplyReplacementsAppend(name: string, first: seq<Pair>, second: seq<Pair>)
    requires Replaceable(first) && Replaceable(second)
    ensures Replaceable(first + second)
    ensures ApplyReplacements(name, first + second) == ApplyReplacements(ApplyReplacements(name, first), second)
    decreases |first|
  {
    if first != [] {
      var next := Replace(name, first[0].oldValue, first[0].newValue);
      assert (first + second)[1..] == first[1..] + second;
      ApplyReplacementsAppend(next, first[1..], second);
    } else {
      assert first + second == second;
    }
  }

  /** Parsed rules can always be applied. */
  lemma WellFormedReplaceable(pairs: seq<Pair>)
    requires WellFormed(pairs)
    ensures Replaceable(pairs)
  {
  }
}
