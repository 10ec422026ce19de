/** Browser.isMatch(userAgent, condition): the condition language
    "[not] family [comparator version]" / "!family" evaluated against the
    display string and the version of a user agent. The method follows the
    source step by step over its token array; the function Match states the
    same evaluation as stages (tokens, negation, decision), and the lemmas
    below describe what each form of condition evaluates to, exceptions
    included. */
module BrowserMatch {
  import opened JavaString
  import opened Browser

  /** condition.toLowerCase().split(" ") */
  function Tokens(condition: string): seq<string>
  {
    Split(Lower(condition))
  }

  /** The tokens after negation has been taken off. */
  datatype Negated = Negated(negate: bool, args: seq<string>)

  /** A leading "not" is dropped and the next three tokens are kept (fewer
      than three after it and the copy reads past the array); a leading "!"
      is stripped from the first token. */
  function Negation(args: seq<string>): (r: Result<Negated>)
    requires |args| >= 1
    ensures r.Thrown? <==> args[0] == "not" && |args| < 4
    ensures r.Thrown? ==> r.ex == ArrayIndexOutOfBounds
    ensures r.Ok? && args[0] == "not" ==> r.value.negate && r.value.args == args[1..4]
    ensures r.Ok? && args[0] != "not" ==>
      r.value.negate == StartsWith(args[0], "!") && |r.value.args| == |args|
  {
    if args[0] == "not" then
      if |args| < 4 then Thrown(ArrayIndexOutOfBounds)
      else Ok(Negated(true, args[1..4]))
    else if StartsWith(args[0], "!") then
      Ok(Negated(true, [args[0][1..]] + args[1..]))
    else Ok(Negated(false, args))
  }

  /** The comparator applied to the sign of compareTo; unknown ones are false. */
  predicate Holds(op: string, delta: int)
  {
    if op == "lt" || op == "<" then delta < 0
    else if op == "lte" || op == "<=" then delta <= 0
    else if op == "gt" || op == ">" then delta > 0
    else if op == "gte" || op == ">=" then delta >= 0
    else if op == "eq" || op == "=" then delta == 0
    else false
  }

  /** The decision once the display string and version of the agent are known. */
  function Decide(display: string, version: string, negate: bool, args: seq<string>): (r: Result<bool>)
    requires |args| >= 1
    ensures r.Thrown? ==>
      (r.ex == IllegalArgument && |args| == 2 && !StartsWith(args[1], "!"))
      || (r.ex == ArrayIndexOutOfBounds && |args| == 1 && StartsWith(Lower(display), args[0]))
    ensures !StartsWith(Lower(display), args[0]) && !negate ==> r == Ok(false)
  {
    var matched := StartsWith(Lower(display), args[0]);
    if (!matched && |args| == 1) || !(matched || negate) then Ok(negate)
    else if |args| == 2 then
      if StartsWith(args[1], "!") then Ok(version != args[1][1..])
      else Thrown(IllegalArgument)
    else if |args| < 3 then Thrown(ArrayIndexOutOfBounds)
    else Ok(Holds(args[1], if negate then Compare(args[2], version) else Compare(version, args[2])))
  }

  /** The evaluation once negation is resolved: getBrowser, then Decide. */
  function Resolve(userAgent: string, n: Negated): Result<bool>
    requires |n.args| >= 1
  {
    match GetBrowser(userAgent)
    case Thrown(e) => Thrown(e)
    case Ok(display) => Decide(display, GetVersion(userAgent).value, n.negate, n.args)
  }

  /** isMatch as a function of the agent and the condition. */
  function Match(userAgent: string, condition: string): (r: Result<bool>)
    ensures Tokens(condition) == [] ==> r == Ok(false)
    ensures r.Thrown? && r.ex == StringIndexOutOfBounds ==> GetVersion(userAgent).Thrown?
    ensures Tokens(condition) != [] && Negation(Tokens(condition)).Ok? && GetVersion(userAgent).Thrown?
      ==> r == Thrown(StringIndexOutOfBounds)
  {
    var args := Tokens(condition);
    if |args| == 0 then Ok(false)
    else
      match Negation(args)
      case Thrown(e) => Thrown(e)
      case Ok(n) => Resolve(userAgent, n)
  }

  /** Browser.isMatch, step by step: the token array is edited in place and,
      for "not", replaced by a fresh three-element copy. */
  method IsMatch(userAgent: string, condition: string) returns (r: Result<bool>)
    ensures r == Match(userAgent, condition)
  {
    var parts := Split(Lower(condition));
    var args := new string[|parts|](i requires 0 <= i < |parts| => parts[i]);
    assert args[..] == parts;
    if args.Length < 1 {
      return Ok(false);
    }

    var negated, negate := TakeNegation(args);
    if negated.Thrown? {
      return Thrown(negated.ex);
    }
    r := CheckCondition(userAgent, negated.value, negate);
  }

  /** The negation step of isMatch: "not" swaps in a fresh three-element copy
      of the next tokens, "!" is stripped from the first token in place. */
  method TakeNegation(args: array<string>) returns (r: Result<array<string>>, negate: bool)
    requires args.Length >= 1
    modifies args
    ensures r.Thrown? ==> Negation(old(args[..])) == Thrown(r.ex)
    ensures r.Ok? ==> (r.value == args || fresh(r.value))
    ensures r.Ok? ==> Negation(old(args[..])) == Ok(Negated(negate, r.value[..]))
    ensures old(args[0]) != "not" && StartsWith(old(args[0]), "!") ==>
      args[..] == [old(args[0])[1..]] + old(args[..])[1..]
    ensures old(args[0]) == "not" || !StartsWith(old(args[0]), "!") ==> args[..] == old(args[..])
  {
    negate := false;
    var result := args;
    if args[0] == "not" {
      var tmp := new string[3](_ => "");
      if args.Length <= 1 { return Thrown(ArrayIndexOutOfBounds), negate; }
      tmp[0] := args[1];
      if args.Length > 1 {
        if args.Length <= 2 { return Thrown(ArrayIndexOutOfBounds), negate; }
        tmp[1] := args[2];
      }
      if args.Length > 2 {
        if args.Length <= 3 { return Thrown(ArrayIndexOutOfBounds), negate; }
        tmp[2] := args[3];
      }
      assert tmp[..] == args[1..4];
      result := tmp;
      negate := true;
    } else if StartsWith(args[0], "!") {
      args[0] := args[0][1..];
      negate := true;
      assert args[..] == [old(args[0])[1..]] + old(args[..])[1..];
    }
    r := Ok(result);
  }

  /** The rest of isMatch once negation is resolved: the family check against
      the display string, then the "!version" form or the comparison. The
      array's second token is stripped of its "!" in place. */
  method CheckCondition(userAgent: string, args: array<string>, negate: bool) returns (r: Result<bool>)
    requires args.Length >= 1
    modifies args
    ensures r == Resolve(userAgent, Negated(negate, old(args[..])))
    ensures forall i :: 0 <= i < args.Length && i != 1 ==> args[i] == old(args[i])
    ensures args.Length >= 2 ==>
      args[1] == old(args[1])
      || (args.Length == 2 && StartsWith(old(args[1]), "!") && args[1] == old(args[1])[1..])
  {
    var browser := GetBrowser(userAgent);
    if browser.Thrown? {
      return Thrown(browser.ex);
    }
    var matched := StartsWith(Lower(browser.value), args[0]);
    if (!matched && args.Length == 1) || !(matched || negate) {
      return Ok(negate);
    }

    if args.Length == 2 && !StartsWith(args[1], "!") {
      return Thrown(IllegalArgument);
    }

    if args.Length == 2 && StartsWith(args[1], "!") {
      args[1] := args[1][1..];
      var version := GetVersion(userAgent);
      return Ok(Compare(version.value, args[1]) != 0);
    }

    var delta;
    if negate {
      if args.Length <= 2 { return Thrown(ArrayIndexOutOfBounds); }
      var version := GetVersion(userAgent);
      delta := Compare(args[2], version.value);
    } else {
      var version := GetVersion(userAgent);
      if args.Length <= 2 { return Thrown(ArrayIndexOutOfBounds); }
      delta := Compare(version.value, args[2]);
    }

    if args[1] == "lt" || args[1] == "<" {
      return Ok(delta < 0);
    } else if args[1] == "lte" || args[1] == "<=" {
      return Ok(delta <= 0);
    } else if args[1] == "gt" || args[1] == ">" {
      return Ok(delta > 0);
    } else if args[1] == "gte" || args[1] == ">=" {
      return Ok(delta >= 0);
    } else if args[1] == "eq" || args[1] == "=" {
      return Ok(delta == 0);
    }
    return Ok(false);
  }

  // ---------------------------------------------------------------------
  // What each form of condition evaluates to

  /** The family token once a leading "!" is stripped. */
  function Family(token: string): string
  {
    if StartsWith(token, "!") then token[1..] else token
  }

  /** The family token matches when it is a prefix of the lower-cased display string. */
  predicate FamilyMatches(userAgent: string, token: string)
    requires GetBrowser(userAgent).Ok?
  {
    StartsWith(Lower(GetBrowser(userAgent).value), Family(token))
  }

  /** Once negation is resolved and getBrowser has succeeded, isMatch is Decide. */
  lemma MatchDecides(userAgent: string, condition: string, n: Negated)
    requires |Tokens(condition)| >= 1
    requires Negation(Tokens(condition)) == Ok(n)
    requires GetBrowser(userAgent).Ok?
    ensures Match(userAgent, condition) ==
      Decide(GetBrowser(userAgent).value, GetVersion(userAgent).value, n.negate, n.args)
  {
  }

  /** Past the family check, three or more tokens are a comparison. */
  lemma DecideCompares(display: string, version: string, negate: bool, args: seq<string>)
    requires |args| >= 3
    requires StartsWith(Lower(display), args[0]) || negate
    ensures Decide(display, version, negate, args) ==
      Ok(Holds(args[1], if negate then -Compare(version, args[2]) else Compare(version, args[2])))
  {
    CompareAntisymmetric(args[2], version);
  }

  /** Under negation, three tokens compare the given version against the agent's. */
  lemma DecideNegatedCompares(display: string, version: string, args: seq<string>)
    requires |args| == 3
    ensures Decide(display, version, true, args) == Ok(Holds(args[1], -Compare(version, args[2])))
  {
    CompareAntisymmetric(args[2], version);
  }

  /** Without "not", negation only strips a leading "!" from the family token. */
  lemma NegationOfFamily(args: seq<string>)
    requires |args| >= 1 && args[0] != "not"
    ensures Negation(args) == Ok(Negated(StartsWith(args[0], "!"), [Family(args[0])] + args[1..]))
  {
    if !StartsWith(args[0], "!") {
      assert [args[0]] + args[1..] == args;
    }
  }

  /** A condition of spaces only has no tokens and is false, whatever the agent. */
  lemma SpacesOnlyIsFalse(userAgent: string, condition: string)
    requires |condition| > 0
    requires forall i :: 0 <= i < |condition| ==> condition[i] == ' '
    ensures Match(userAgent, condition) == Ok(false)
  {
    var lowered := Lower(condition);
    assert forall i :: 0 <= i < |lowered| ==> lowered[i] == ' ';
    SplitOfSpaces(lowered);
  }

  /** The empty condition splits into one empty token, which prefixes every
      display string, so the third token is read and the array overflows
      (unless getVersion has already thrown). */
  lemma EmptyConditionThrows(userAgent: string)
    ensures Match(userAgent, "") ==
      Thrown(if GetVersion(userAgent).Thrown? then StringIndexOutOfBounds else ArrayIndexOutOfBounds)
  {
    assert Lower("") == "";
    assert Tokens("") == [""];
    assert Negation([""]) == Ok(Negated(false, [""]));
    if GetBrowser(userAgent).Ok? {
      MatchDecides(userAgent, "", Negated(false, [""]));
      DecideSingleMatched(GetBrowser(userAgent).value, GetVersion(userAgent).value, "");
    } else {
      GetVersionThrowsExactly(userAgent);
    }
  }

  /** A lone token that prefixes the display string, without negation, reads
      past the end of the token array. */
  lemma DecideSingleMatched(display: string, version: string, token: string)
    requires StartsWith(Lower(display), token)
    ensures Decide(display, version, false, [token]) == Thrown(ArrayIndexOutOfBounds)
  {
  }

  /** Without negation, a family token that does not prefix the display string gives false. */
  lemma UnmatchedFamilyIsFalse(userAgent: string, condition: string)
    requires |Tokens(condition)| >= 1
    requires Tokens(condition)[0] != "not" && !StartsWith(Tokens(condition)[0], "!")
    requires GetBrowser(userAgent).Ok?
    requires !FamilyMatches(userAgent, Tokens(condition)[0])
    ensures Match(userAgent, condition) == Ok(false)
  {
  }

  /** A lone "!family" that does not match gives true. */
  lemma UnmatchedBangIsTrue(userAgent: string, condition: string)
    requires |Tokens(condition)| == 1
    requires StartsWith(Tokens(condition)[0], "!")
    requires GetBrowser(userAgent).Ok?
    requires !FamilyMatches(userAgent, Tokens(condition)[0])
    ensures Match(userAgent, condition) == Ok(true)
  {
  }

  /** A lone family token that does match reads a third token that is not
      there: "ie" on an IE agent throws rather than answering true. */
  lemma MatchedSingleTokenThrows(userAgent: string, condition: string)
    requires |Tokens(condition)| == 1
    requires Tokens(condition)[0] != "not"
    requires GetBrowser(userAgent).Ok?
    requires FamilyMatches(userAgent, Tokens(condition)[0])
    ensures Match(userAgent, condition) == Thrown(ArrayIndexOutOfBounds)
  {
  }

  /** "not" followed by fewer than three tokens overflows the token array:
      the copy reads one index further than its guard allows. */
  lemma ShortNotThrows(userAgent: string, condition: string)
    requires 1 <= |Tokens(condition)| < 4
    requires Tokens(condition)[0] == "not"
    ensures Match(userAgent, condition) == Thrown(ArrayIndexOutOfBounds)
  {
  }

  /** "not family op version" never short-circuits on the family: it is the
      comparison with the operands swapped, whatever the family token, and
      tokens after the fourth are ignored. */
  lemma NotFormIgnoresFamily(userAgent: string, condition: string)
    requires |Tokens(condition)| >= 4
    requires Tokens(condition)[0] == "not"
    requires GetBrowser(userAgent).Ok?
    ensures var t := Tokens(condition);
      Match(userAgent, condition) == Ok(Holds(t[2], -Compare(GetVersion(userAgent).value, t[3])))
  {
    var t := Tokens(condition);
    var args := t[1..4];
    var display, version := GetBrowser(userAgent).value, GetVersion(userAgent).value;
    assert Negation(t) == Ok(Negated(true, args));
    MatchDecides(userAgent, condition, Negated(true, args));
    DecideNegatedCompares(display, version, args);
    assert args[1] == t[2] && args[2] == t[3];
  }

  /** "family x": x must be "!version", and then the answer is whether the
      agent's version differs from it, whatever the negation of the family. */
  lemma TwoTokenForm(userAgent: string, condition: string)
    requires |Tokens(condition)| == 2
    requires Tokens(condition)[0] != "not"
    requires GetBrowser(userAgent).Ok?
    requires FamilyMatches(userAgent, Tokens(condition)[0]) || StartsWith(Tokens(condition)[0], "!")
    ensures var t := Tokens(condition);
      Match(userAgent, condition) ==
        if StartsWith(t[1], "!") then Ok(GetVersion(userAgent).value != t[1][1..])
        else Thrown(IllegalArgument)
  {
  }

  /** "family op version" (or "!family op version"): the comparator applied
      to compareTo of the agent's version against the given one, reversed
      under "!"; later tokens are ignored. */
  lemma ThreeTokenForm(userAgent: string, condition: string)
    requires |Tokens(condition)| >= 3
    requires Tokens(condition)[0] != "not"
    requires GetBrowser(userAgent).Ok?
    requires FamilyMatches(userAgent, Tokens(condition)[0]) || StartsWith(Tokens(condition)[0], "!")
    ensures var t := Tokens(condition);
      var delta := Compare(GetVersion(userAgent).value, t[2]);
      Match(userAgent, condition) ==
        Ok(Holds(t[1], if StartsWith(t[0], "!") then -delta else delta))
  {
    var t := Tokens(condition);
    var display, version := GetBrowser(userAgent).value, GetVersion(userAgent).value;
    FamilyComparison(display, version, t);
    var n := Negation(t).value;
    calc {
      Match(userAgent, condition);
    == { MatchDecides(userAgent, condition, n); }
      Decide(display, version, n.negate, n.args);
    ==
      Ok(Holds(t[1], if StartsWith(t[0], "!") then -Compare(version, t[2]) else Compare(version, t[2])));
    }
  }

  /** The token-level core of the comparison form. */
  lemma FamilyComparison(display: string, version: string, t: seq<string>)
    requires |t| >= 3 && t[0] != "not"
    requires StartsWith(Lower(display), Family(t[0])) || StartsWith(t[0], "!")
    ensures Negation(t).Ok? && |Negation(t).value.args| >= 1
    ensures var n := Negation(t).value;
      var delta := Compare(version, t[2]);
      Decide(display, version, n.negate, n.args) ==
        Ok(Holds(t[1], if StartsWith(t[0], "!") then -delta else delta))
  {
    var negate := StartsWith(t[0], "!");
    NegationOfFamily(t);
    var args := [Family(t[0])] + t[1..];
    assert args[1] == t[1] && args[2] == t[2];
    DecideCompares(display, version, negate, args);
  }

  /** Only the five comparators and their symbols can make a comparison true. */
  lemma UnknownComparatorIsFalse(op: string, delta: int)
    requires op !in ["lt", "<", "lte", "<=", "gt", ">", "gte", ">=", "eq", "="]
    ensures !Holds(op, delta)
  {
  }

  /** A condition on "applewebkit" is never true: the label is "Apple WebKit". */
  lemma AppleWebKitConditionNeverTrue(userAgent: string, condition: string)
    requires |Tokens(condition)| >= 1
    requires Tokens(condition)[0] == "applewebkit"
    ensures Match(userAgent, condition) == Ok(false)
            || Match(userAgent, condition) == Thrown(StringIndexOutOfBounds)
  {
    GetVersionThrowsExactly(userAgent);
    if GetBrowser(userAgent).Ok? {
      AppleWebKitNeverPrefixes(userAgent);
    }
  }
}
