/** The option and operand registry of ArgsParser.java: registration with
    duplicate rejection, the "exactly one of these" rule, the operand
    bindings and their lookup, and the usage line. Options and operands are
    opaque values compared with `==`; converting a lexeme to an operand's
    value and an operand's default value are functions given from outside. */
module ArgsRegistry {
  import opened Wrappers

  /** An `Option` instance. */
  type CliOption(==)
  /** An `Operand` instance. */
  type Operand(==)
  /** A converted operand value. */
  type Value

  /** The strings "Optional", "Required" and "Exclusive" of `optionMap`. */
  datatype OptionKind = OptionalOpt | RequiredOpt | ExclusiveOpt

  /** The strings "Required", "Optional", "OneOrMore" and "ZeroOrMore" of
      `operandMap`. */
  datatype OperandKind = RequiredOpr | OptionalOpr | OneOrMoreOpr | ZeroOrMoreOpr

  datatype ArgsError =
    | IllegalArgument(message: string)  // IllegalArgumentException
    | InvalidFormat(lexeme: string)     // "(invalid format) ..."
    | ExpectedOneBinding                // "Expected one binding for operand ..."

  /** The values of `lexemes` converted one by one, or None as soon as one of
      them does not convert. */
  function ConvertAll(convert: (Operand, string) -> Option<Value>, o: Operand, lexemes: seq<string>): Option<seq<Value>>
  {
    if lexemes == [] then Some([])
    else
      match ConvertAll(convert, o, lexemes[..|lexemes| - 1])
      case None => None
      case Some(vs) =>
        match convert(o, lexemes[|lexemes| - 1])
        case None => None
        case Some(v) => Some(vs + [v])
  }

  /** ConvertAll succeeds exactly when every lexeme converts, and then gives
      each lexeme's value at its own position. */
  lemma {:induction false} ConvertAllMeaning(convert: (Operand, string) -> Option<Value>, o: Operand, lexemes: seq<string>)
    ensures ConvertAll(convert, o, lexemes).Some? <==> forall i :: 0 <= i < |lexemes| ==> convert(o, lexemes[i]).Some?
    ensures ConvertAll(convert, o, lexemes).Some? ==>
              var vs := ConvertAll(convert, o, lexemes).value;
              |vs| == |lexemes| && forall i :: 0 <= i < |lexemes| ==> vs[i] == convert(o, lexemes[i]).value
  {
    if lexemes != [] {
      var init := lexemes[..|lexemes| - 1];
      ConvertAllMeaning(convert, o, init);
      assert forall i :: 0 <= i < |init| ==> init[i] == lexemes[i];
    }
  }

  /** `RequiredMode`: a set of options of which exactly one must be given. */
  class RequiredMode {
    const modes: set<CliOption>

    constructor(options: seq<CliOption>)
      ensures modes == set o | o in options
    {
      var s: set<CliOption> := {};
      var i := 0;
      while i < |options|
        invariant 0 <= i <= |options|
        invariant s == set o | o in options[..i]
      {
        assert options[..i + 1] == options[..i] + [options[i]];
        s := s + {options[i]};
        i := i + 1;
      }
      assert options[..i] == options;
      modes := s;
    }

    /** `followsRule`: true exactly when some member of `modes` occurs in the
        parsed options and all the occurrences of members are of the same
        one (repeating it is allowed). */
    method FollowsRule(actualParsedOptions: seq<CliOption>) returns (result: bool)
      ensures result <==>
                && (exists i :: 0 <= i < |actualParsedOptions| && actualParsedOptions[i] in modes)
                && (forall i, j :: 0 <= i < |actualParsedOptions| && 0 <= j < |actualParsedOptions|
                      && actualParsedOptions[i] in modes && actualParsedOptions[j] in modes
                      ==> actualParsedOptions[i] == actualParsedOptions[j])
    {
      var list := actualParsedOptions;
      result := true;
      var mode: Option<CliOption> := None;
      var i := 0;
      while i < |list|
        invariant 0 <= i <= |list|
        invariant mode.None? <==> forall k :: 0 <= k < i ==> list[k] !in modes
        invariant mode.Some? ==> mode.value in modes && exists k :: 0 <= k < i && list[k] == mode.value
        invariant result <==> forall k :: 0 <= k < i && list[k] in modes ==> list[k] == mode.value
      {
        var actual := list[i];
        if actual in modes {
          if mode.None? {
            mode := Some(actual);
          } else if mode.value != actual {
            result := false;
          }
        }
        i := i + 1;
      }
      if mode.None? {
        result := false;
      }
    }
  }

  /** `ArgsParser.Bindings`: the options seen and, per operand, the lexemes
      bound to it in order. */
  class Bindings {
    var options: set<CliOption>
    var operands: map<Operand, seq<string>>
    /** `operand.convertArgument(lexeme)`, None where it throws. */
    const convert: (Operand, string) -> Option<Value>
    /** `operand.getDefaultValue()` when `operand.hasDefaultValue()`. */
    const defaultValue: Operand -> Option<Value>

    constructor(convert: (Operand, string) -> Option<Value>, defaultValue: Operand -> Option<Value>)
      ensures options == {} && operands == map[]
      ensures this.convert == convert && this.defaultValue == defaultValue
    {
      options := {};
      operands := map[];
      this.convert := convert;
      this.defaultValue := defaultValue;
    }

    /** The lexemes bound to `o`, empty when it has no entry. */
    function BoundTo(o: Operand): seq<string>
      reads this
    {
      if o in operands then operands[o] else []
    }

    /** Every stored lexeme converts: `bindOperand` only stores such. */
    ghost predicate Valid()
      reads this
    {
      forall o, i :: o in operands && 0 <= i < |operands[o]| ==> convert(o, operands[o][i]).Some?
    }

    /** `bindOperand`: makes sure the operand has a list, then appends the
        lexeme if it converts; if it does not, fails, leaving the (possibly
        new and empty) list in place. No other operand is touched. */
    method BindOperand(operand: Operand, lexeme: string) returns (r: Outcome<ArgsError>)
      modifies this`operands
      ensures convert(operand, lexeme).Some? ==>
                r == Pass && operands == old(operands)[operand := old(BoundTo(operand)) + [lexeme]]
      ensures convert(operand, lexeme).None? ==>
                r == Fail(InvalidFormat(lexeme)) && operands == old(operands)[operand := old(BoundTo(operand))]
      ensures old(Valid()) ==> Valid()
    {
      var bindings: seq<string>;
      if operand in operands {
        bindings := operands[operand];
      } else {
        bindings := [];
        operands := operands[operand := bindings];
      }
      if convert(operand, lexeme).None? {
        return Fail(InvalidFormat(lexeme));
      }
      bindings := bindings + [lexeme];
      operands := operands[operand := bindings];
      return Pass;
    }

    /** `getOperands`: the converted values of the operand's lexemes in the
        order they were bound, the empty list for an operand with no entry;
        fails if a lexeme does not convert, which cannot happen for lexemes
        stored by `bindOperand`. */
    method GetOperands(operand: Operand) returns (r: Result<seq<Value>, ArgsError>)
      ensures ConvertAll(convert, operand, BoundTo(operand)).Some? ==>
                r == Ok(ConvertAll(convert, operand, BoundTo(operand)).value)
      ensures ConvertAll(convert, operand, BoundTo(operand)).None? ==> r.Err?
      ensures Valid() ==> r.Ok?
    {
      var result: seq<Value> := [];
      if operand in operands {
        var uninterpretedStrings := operands[operand];
        var i := 0;
        while i < |uninterpretedStrings|
          invariant 0 <= i <= |uninterpretedStrings|
          invariant ConvertAll(convert, operand, uninterpretedStrings[..i]) == Some(result)
        {
          assert uninterpretedStrings[..i + 1][..i] == uninterpretedStrings[..i];
          var v := convert(operand, uninterpretedStrings[i]);
          if v.None? {
            ConvertAllPrefix(convert, operand, uninterpretedStrings, i + 1);
            return Err(InvalidFormat(uninterpretedStrings[i]));
          }
          result := result + [v.value];
          i := i + 1;
        }
        assert uninterpretedStrings[..i] == uninterpretedStrings;
      }
      if Valid() {
        ConvertAllMeaning(convert, operand, BoundTo(operand));
      }
      return Ok(result);
    }

    /** `getOperand`: the single bound value; for an operand with no entry
        its default value if it has one; an error otherwise, in particular
        for an operand bound zero or several times even when it has a
        default. */
    method GetOperand(operand: Operand) returns (r: Result<Value, ArgsError>)
      ensures operand in operands && |operands[operand]| == 1 && convert(operand, operands[operand][0]).Some? ==>
                r == Ok(convert(operand, operands[operand][0]).value)
      ensures operand in operands && |operands[operand]| == 1 && convert(operand, operands[operand][0]).None? ==>
                r.Err?
      ensures operand in operands && |operands[operand]| != 1 ==> r.Err?
      ensures operand !in operands && defaultValue(operand).Some? ==> r == Ok(defaultValue(operand).value)
      ensures operand !in operands && defaultValue(operand).None? ==> r == Err(ExpectedOneBinding)
    {
      if operand in operands {
        var result := GetOperands(operand);
        ConvertAllMeaning(convert, operand, operands[operand]);
        if result.Err? {
          return Err(result.error);
        }
        if |result.value| == 1 {
          return Ok(result.value[0]);
        }
      } else if defaultValue(operand).Some? {
        return Ok(defaultValue(operand).value);
      }
      return Err(ExpectedOneBinding);
    }
  }

  /** If the first `n` lexemes do not all convert, neither do all of them. */
  lemma {:induction false} ConvertAllPrefix(convert: (Operand, string) -> Option<Value>, o: Operand, lexemes: seq<string>, n: nat)
    requires n <= |lexemes| && ConvertAll(convert, o, lexemes[..n]).None?
    ensures ConvertAll(convert, o, lexemes).None?
  {
    ConvertAllMeaning(convert, o, lexemes[..n]);
    ConvertAllMeaning(convert, o, lexemes);
    var i :| 0 <= i < n && convert(o, lexemes[..n][i]).None?;
    assert lexemes[..n][i] == lexemes[i];
  }

  /** The phrase for the options in the usage line, by the number of
      required (including exclusive) and of optional options. */
  function OptionPhrase(reqOpt: nat, optOpt: nat): string
  {
    if reqOpt > 1 then "Options..."
    else if reqOpt > 0 && optOpt > 0 then "Option..."
    else if reqOpt > 0 then "Option"
    else if optOpt > 1 then "[Options...]"
    else if optOpt > 0 then "[Option]"
    else ""
  }

  /** The phrase for the operands, by the weighted numbers of required and
      optional operands; its second test reads the number of optional
      options, as the source does. */
  function OperandPhrase(reqOpr: nat, optOpr: nat, optOpt: nat): string
  {
    if reqOpr > 1 then "Operands..."
    else if reqOpr > 0 && optOpt > 0 then "Operands..."
    else if reqOpr > 0 then "Operand"
    else if optOpr > 1 then "[Operands...]"
    else if optOpr > 0 then "[Operand]"
    else ""
  }

  /** The option phrase is empty exactly when no option is registered, and
      bracketed exactly when all of them are optional. */
  lemma OptionPhraseCases(reqOpt: nat, optOpt: nat)
    ensures OptionPhrase(reqOpt, optOpt) == "" <==> reqOpt == 0 && optOpt == 0
    ensures OptionPhrase(reqOpt, optOpt) != "" ==>
              (OptionPhrase(reqOpt, optOpt)[0] == '[' <==> reqOpt == 0)
  {
  }

  /** The operand phrase is empty exactly when no operand is registered, and
      bracketed exactly when none is required; one required operand reads
      as plural whenever an optional option is registered. */
  lemma OperandPhraseCases(reqOpr: nat, optOpr: nat, optOpt: nat)
    ensures OperandPhrase(reqOpr, optOpr, optOpt) == "" <==> reqOpr == 0 && optOpr == 0
    ensures OperandPhrase(reqOpr, optOpr, optOpt) != "" ==>
              (OperandPhrase(reqOpr, optOpr, optOpt)[0] == '[' <==> reqOpr == 0)
    ensures reqOpr == 1 && optOpt > 0 ==> OperandPhrase(reqOpr, optOpr, optOpt) == "Operands..."
  {
  }

  /** The options counted as required in the usage line: "Required" and
      "Exclusive" ones. */
  function RequiredOptions(m: map<CliOption, OptionKind>): set<CliOption>
  {
    set o | o in m && m[o] != OptionalOpt
  }

  function OptionalOptions(m: map<CliOption, OptionKind>): set<CliOption>
  {
    set o | o in m && m[o] == OptionalOpt
  }

  function OperandsOfKind(m: map<Operand, OperandKind>, k: OperandKind): set<Operand>
  {
    set o | o in m && m[o] == k
  }

  /** The weighted count of required operands: a OneOrMore operand counts 2. */
  function RequiredOperandWeight(m: map<Operand, OperandKind>): nat
  {
    |OperandsOfKind(m, RequiredOpr)| + 2 * |OperandsOfKind(m, OneOrMoreOpr)|
  }

  /** The weighted count of optional operands: a ZeroOrMore operand counts 2. */
  function OptionalOperandWeight(m: map<Operand, OperandKind>): nat
  {
    |OperandsOfKind(m, OptionalOpr)| + 2 * |OperandsOfKind(m, ZeroOrMoreOpr)|
  }

  /** The usage line for a command with the given registrations. */
  function Usage(commandName: string, optionMap: map<CliOption, OptionKind>, operandMap: map<Operand, OperandKind>): string
  {
    "Usage: " + commandName + " "
      + OptionPhrase(|RequiredOptions(optionMap)|, |OptionalOptions(optionMap)|)
      + OperandPhrase(RequiredOperandWeight(operandMap), OptionalOperandWeight(operandMap), |OptionalOptions(optionMap)|)
  }

  /** The usage line always starts with "Usage: ", the command name and a
      space; it ends there exactly when nothing is registered. */
  lemma UsageShape(commandName: string, optionMap: map<CliOption, OptionKind>, operandMap: map<Operand, OperandKind>)
    ensures var u := Usage(commandName, optionMap, operandMap);
            var prefix := "Usage: " + commandName + " ";
            |prefix| <= |u| && u[..|prefix|] == prefix
    ensures Usage(commandName, optionMap, operandMap) == "Usage: " + commandName + " " <==>
              optionMap == map[] && operandMap == map[]
  {
    var prefix := "Usage: " + commandName + " ";
    var op := OptionPhrase(|RequiredOptions(optionMap)|, |OptionalOptions(optionMap)|);
    var rp := OperandPhrase(RequiredOperandWeight(operandMap), OptionalOperandWeight(operandMap), |OptionalOptions(optionMap)|);
    assert Usage(commandName, optionMap, operandMap) == prefix + (op + rp);
    OptionPhraseCases(|RequiredOptions(optionMap)|, |OptionalOptions(optionMap)|);
    OperandPhraseCases(RequiredOperandWeight(operandMap), OptionalOperandWeight(operandMap), |OptionalOptions(optionMap)|);
    KindsCover(optionMap, operandMap);
  }

  /** No registration is left out of the counts. */
  lemma KindsCover(optionMap: map<CliOption, OptionKind>, operandMap: map<Operand, OperandKind>)
    ensures optionMap == map[] <==> |RequiredOptions(optionMap)| == 0 && |OptionalOptions(optionMap)| == 0
    ensures operandMap == map[] <==> RequiredOperandWeight(operandMap) == 0 && OptionalOperandWeight(operandMap) == 0
  {
    if optionMap != map[] {
      var o :| o in optionMap;
      assert o in RequiredOptions(optionMap) || o in OptionalOptions(optionMap);
    }
    if operandMap != map[] {
      var o :| o in operandMap;
      assert o in OperandsOfKind(operandMap, operandMap[o]);
    }
  }

  /** The parser under construction: the command name, the kind of every
      registered option and operand, and the list of required modes. */
  class ArgsParser {
    const commandName: string
    var optionMap: map<CliOption, OptionKind>
    var operandMap: map<Operand, OperandKind>
    var requiredModes: seq<RequiredMode>

    constructor(commandName: string)
      ensures this.commandName == commandName
      ensures optionMap == map[] && operandMap == map[] && requiredModes == []
    {
      this.commandName := commandName;
      optionMap := map[];
      operandMap := map[];
      requiredModes := [];
    }

    /** Some required mode already holds `o`. */
    predicate InSomeMode(o: CliOption)
      reads this
    {
      exists k :: 0 <= k < |requiredModes| && o in requiredModes[k].modes
    }

    /** `optional`: rejects an option already registered, changing nothing;
        otherwise records it as optional. */
    method Optional(optionalOption: CliOption) returns (r: Outcome<ArgsError>)
      modifies this`optionMap
      ensures old(optionalOption in optionMap) ==> r == Fail(IllegalArgument("")) && optionMap == old(optionMap)
      ensures old(optionalOption !in optionMap) ==> r == Pass && optionMap == old(optionMap)[optionalOption := OptionalOpt]
    {
      if optionalOption in optionMap {
        return Fail(IllegalArgument(""));
      } else {
        optionMap := optionMap[optionalOption := OptionalOpt];
      }
      return Pass;
    }

    /** Scans the required modes for one holding `o`, as the loops of
        `require` and `requireOneOf` do. */
    method FindInModes(o: CliOption) returns (found: bool)
      ensures found <==> InSomeMode(o)
    {
      var k := 0;
      while k < |requiredModes|
        invariant 0 <= k <= |requiredModes|
        invariant forall j :: 0 <= j < k ==> o !in requiredModes[j].modes
      {
        if o in requiredModes[k].modes {
          return true;
        }
        k := k + 1;
      }
      return false;
    }

    /** `require`: rejects an option already registered or already in a
        required mode, changing nothing; otherwise appends one new required
        mode holding just that option and records it as required. */
    method Require(errString: string, requiredOption: CliOption) returns (r: Outcome<ArgsError>)
      modifies this`optionMap, this`requiredModes
      ensures old(requiredOption in optionMap || InSomeMode(requiredOption)) ==>
                r == Fail(IllegalArgument(errString)) && optionMap == old(optionMap) && requiredModes == old(requiredModes)
      ensures !old(requiredOption in optionMap || InSomeMode(requiredOption)) ==>
                && r == Pass
                && optionMap == old(optionMap)[requiredOption := RequiredOpt]
                && |requiredModes| == |old(requiredModes)| + 1
                && requiredModes[..|old(requiredModes)|] == old(requiredModes)
                && fresh(requiredModes[|old(requiredModes)|])
                && requiredModes[|old(requiredModes)|].modes == {requiredOption}
    {
      if requiredOption in optionMap {
        return Fail(IllegalArgument(errString));
      } else {
        var found := FindInModes(requiredOption);
        if found {
          return Fail(IllegalArgument(errString));
        }
      }
      var mode := new RequiredMode([requiredOption]);
      requiredModes := requiredModes + [mode];
      optionMap := optionMap[requiredOption := RequiredOpt];
      return Pass;
    }

    /** `requireOneOf`: checks every given option against the registered
        options and the required modes before changing anything, so a
        rejection changes nothing; otherwise records each as exclusive and
        appends one new required mode holding all of them. */
    method RequireOneOf(errString: string, exclusiveOptions: seq<CliOption>) returns (r: Outcome<ArgsError>)
      modifies this`optionMap, this`requiredModes
      ensures (exists i :: 0 <= i < |exclusiveOptions| &&
                 old(exclusiveOptions[i] in optionMap || InSomeMode(exclusiveOptions[i]))) ==>
                r == Fail(IllegalArgument(errString)) && optionMap == old(optionMap) && requiredModes == old(requiredModes)
      ensures (forall i :: 0 <= i < |exclusiveOptions| ==>
                 !old(exclusiveOptions[i] in optionMap || InSomeMode(exclusiveOptions[i]))) ==>
                && r == Pass
                && (forall o :: o in optionMap <==> o in old(optionMap) || o in exclusiveOptions)
                && (forall o :: o in exclusiveOptions ==> optionMap[o] == ExclusiveOpt)
                && (forall o :: o in old(optionMap) ==> optionMap[o] == old(optionMap)[o])
                && |requiredModes| == |old(requiredModes)| + 1
                && requiredModes[..|old(requiredModes)|] == old(requiredModes)
                && fresh(requiredModes[|old(requiredModes)|])
                && requiredModes[|old(requiredModes)|].modes == set o | o in exclusiveOptions
    {
      var i := 0;
      while i < |exclusiveOptions|
        invariant 0 <= i <= |exclusiveOptions|
        invariant optionMap == old(optionMap) && requiredModes == old(requiredModes)
        invariant forall j :: 0 <= j < i ==> !(exclusiveOptions[j] in optionMap || InSomeMode(exclusiveOptions[j]))
      {
        if exclusiveOptions[i] in optionMap {
          return Fail(IllegalArgument(errString));
        } else {
          var found := FindInModes(exclusiveOptions[i]);
          if found {
            return Fail(IllegalArgument(errString));
          }
        }
        i := i + 1;
      }
      i := 0;
      while i < |exclusiveOptions|
        invariant 0 <= i <= |exclusiveOptions|
        invariant forall o :: o in optionMap <==> o in old(optionMap) || o in exclusiveOptions[..i]
        invariant forall o :: o in exclusiveOptions[..i] ==> optionMap[o] == ExclusiveOpt
        invariant forall o :: o in old(optionMap) ==> optionMap[o] == old(optionMap)[o]
        invariant requiredModes == old(requiredModes)
      {
        assert exclusiveOptions[..i + 1] == exclusiveOptions[..i] + [exclusiveOptions[i]];
        optionMap := optionMap[exclusiveOptions[i] := ExclusiveOpt];
        i := i + 1;
      }
      assert exclusiveOptions[..i] == exclusiveOptions;
      var mode := new RequiredMode(exclusiveOptions);
      requiredModes := requiredModes + [mode];
      return Pass;
    }

    /** `requiredOperand`: records the operand as required, replacing any
        earlier registration of it. */
    method RequiredOperand(requiredOperand: Operand)
      modifies this`operandMap
      ensures operandMap == old(operandMap)[requiredOperand := RequiredOpr]
    {
      operandMap := operandMap[requiredOperand := RequiredOpr];
    }

    /** `optionalOperand`: records the operand as optional. */
    method OptionalOperand(optionalOperand: Operand)
      modifies this`operandMap
      ensures operandMap == old(operandMap)[optionalOperand := OptionalOpr]
    {
      operandMap := operandMap[optionalOperand := OptionalOpr];
    }

    /** `oneOrMoreOperands`: records the operand as one-or-more. */
    method OneOrMoreOperands(operand: Operand)
      modifies this`operandMap
      ensures operandMap == old(operandMap)[operand := OneOrMoreOpr]
    {
      operandMap := operandMap[operand := OneOrMoreOpr];
    }

    /** `zeroOrMoreOperands`: records the operand as zero-or-more. */
    method ZeroOrMoreOperands(operand: Operand)
      modifies this`operandMap
      ensures operandMap == old(operandMap)[operand := ZeroOrMoreOpr]
    {
      operandMap := operandMap[operand := ZeroOrMoreOpr];
    }

    /** `usageStatement`: counts the registrations, visiting them in an order
        the model leaves open, and builds the usage line from the counts. */
    method UsageStatement() returns (stringToReturn: string)
      ensures stringToReturn == Usage(commandName, optionMap, operandMap)
    {
      var reqOpt, optOpt := CountOptions(optionMap);
      var reqOpr, optOpr := CountOperands(operandMap);
      stringToReturn := "Usage: " + commandName + " ";
      if reqOpt > 1 {
        stringToReturn := stringToReturn + "Options...";
      } else if reqOpt > 0 && optOpt > 0 {
        stringToReturn := stringToReturn + "Option...";
      } else if reqOpt > 0 {
        stringToReturn := stringToReturn + "Option";
      } else if optOpt > 1 {
        stringToReturn := stringToReturn + "[Options...]";
      } else if optOpt > 0 {
        stringToReturn := stringToReturn + "[Option]";
      }
      if reqOpr > 1 {
        stringToReturn := stringToReturn + "Operands...";
      } else if reqOpr > 0 && optOpt > 0 {
        stringToReturn := stringToReturn + "Operands...";
      } else if reqOpr > 0 {
        stringToReturn := stringToReturn + "Operand";
      } else if optOpr > 1 {
        stringToReturn := stringToReturn + "[Operands...]";
      } else if optOpr > 0 {
        stringToReturn := stringToReturn + "[Operand]";
      }
    }
  }

  /** The first loop of `usageStatement`: one for each "Required" or
      "Exclusive" option in `reqOpt`, one for each "Optional" in `optOpt`. */
  method CountOptions(optionMap: map<CliOption, OptionKind>) returns (reqOpt: nat, optOpt: nat)
    ensures reqOpt == |RequiredOptions(optionMap)| && optOpt == |OptionalOptions(optionMap)|
  {
    reqOpt, optOpt := 0, 0;
    var entries := optionMap.Keys;
    OptionsTalliedStart(optionMap);
    while entries != {}
      invariant OptionsTallied(optionMap, entries, reqOpt, optOpt)
      decreases entries
    {
      var k :| k in entries;
      OptionsTalliedStep(optionMap, entries, k, reqOpt, optOpt);
      match optionMap[k] {
        case RequiredOpt => reqOpt := reqOpt + 1;
        case OptionalOpt => optOpt := optOpt + 1;
        case ExclusiveOpt => reqOpt := reqOpt + 1;
      }
      entries := entries - {k};
    }
    OptionsTalliedAll(optionMap, reqOpt, optOpt);
  }

  /** The loop invariant of `CountOptions`: with `entries` still to visit,
      the counters hold the required and the optional options visited. */
  ghost predicate OptionsTallied(m: map<CliOption, OptionKind>, entries: set<CliOption>, reqOpt: nat, optOpt: nat)
  {
    && entries <= m.Keys
    && reqOpt == |RequiredOptions(m) * (m.Keys - entries)|
    && optOpt == |OptionalOptions(m) * (m.Keys - entries)|
  }

  lemma OptionsTalliedStart(m: map<CliOption, OptionKind>)
    ensures OptionsTallied(m, m.Keys, 0, 0)
  {
    var none := m.Keys - m.Keys;
    assert none == {};
    assert RequiredOptions(m) * none == {} && OptionalOptions(m) * none == {};
  }

  /** Visiting one more option adds one to the counter of its kind. */
  lemma OptionsTalliedStep(m: map<CliOption, OptionKind>, entries: set<CliOption>, k: CliOption, reqOpt: nat, optOpt: nat)
    requires OptionsTallied(m, entries, reqOpt, optOpt) && k in entries
    ensures m[k] == OptionalOpt ==> OptionsTallied(m, entries - {k}, reqOpt, optOpt + 1)
    ensures m[k] != OptionalOpt ==> OptionsTallied(m, entries - {k}, reqOpt + 1, optOpt)
  {
    var visited := m.Keys - entries;
    assert m.Keys - (entries - {k}) == visited + {k};
    CountStep(RequiredOptions(m), visited, k);
    CountStep(OptionalOptions(m), visited, k);
  }

  /** Once every option is visited the counters hold the two counts. */
  lemma OptionsTalliedAll(m: map<CliOption, OptionKind>, reqOpt: nat, optOpt: nat)
    requires OptionsTallied(m, {}, reqOpt, optOpt)
    ensures reqOpt == |RequiredOptions(m)| && optOpt == |OptionalOptions(m)|
  {
    var visited := m.Keys - {};
    assert visited == m.Keys;
    Covered(RequiredOptions(m), visited);
    Covered(OptionalOptions(m), visited);
  }

  /** The second loop of `usageStatement`: "Required" adds 1 and "OneOrMore"
      adds 2 to `reqOpr`; "Optional" adds 1 and "ZeroOrMore" adds 2 to
      `optOpr`. */
  method CountOperands(operandMap: map<Operand, OperandKind>) returns (reqOpr: nat, optOpr: nat)
    ensures reqOpr == RequiredOperandWeight(operandMap) && optOpr == OptionalOperandWeight(operandMap)
  {
    reqOpr, optOpr := 0, 0;
    var entries := operandMap.Keys;
    TalliedStart(operandMap);
    while entries != {}
      invariant Tallied(operandMap, entries, reqOpr, optOpr)
      decreases entries
    {
      var k :| k in entries;
      TalliedStep(operandMap, entries, k, reqOpr, optOpr);
      match operandMap[k] {
        case RequiredOpr => reqOpr := reqOpr + 1;
        case OptionalOpr => optOpr := optOpr + 1;
        case OneOrMoreOpr => reqOpr := reqOpr + 2;
        case ZeroOrMoreOpr => optOpr := optOpr + 2;
      }
      entries := entries - {k};
    }
    TalliedAll(operandMap, reqOpr, optOpr);
  }

  /** What an operand of kind `kind` adds to the counter that counts
      `single` as 1 and `many` as 2. */
  function Tally(kind: OperandKind, single: OperandKind, many: OperandKind): nat
  {
    if kind == single then 1 else if kind == many then 2 else 0
  }

  /** The weighted count over the operands seen so far: one for each of kind
      `single`, two for each of kind `many`. */
  ghost function WeightSeen(m: map<Operand, OperandKind>, visited: set<Operand>, single: OperandKind, many: OperandKind): nat
  {
    |OperandsOfKind(m, single) * visited| + 2 * |OperandsOfKind(m, many) * visited|
  }

  /** The loop invariant of `CountOperands`: with `entries` still to visit,
      the two counters hold the weights of the operands already visited. */
  ghost predicate Tallied(m: map<Operand, OperandKind>, entries: set<Operand>, reqOpr: nat, optOpr: nat)
  {
    && entries <= m.Keys
    && reqOpr == WeightSeen(m, m.Keys - entries, RequiredOpr, OneOrMoreOpr)
    && optOpr == WeightSeen(m, m.Keys - entries, OptionalOpr, ZeroOrMoreOpr)
  }

  lemma TalliedStart(m: map<Operand, OperandKind>)
    ensures Tallied(m, m.Keys, 0, 0)
  {
    var none := m.Keys - m.Keys;
    assert none == {};
    assert OperandsOfKind(m, RequiredOpr) * none == {} && OperandsOfKind(m, OneOrMoreOpr) * none == {};
    assert OperandsOfKind(m, OptionalOpr) * none == {} && OperandsOfKind(m, ZeroOrMoreOpr) * none == {};
  }

  /** Visiting one more operand adds its tally to each counter. */
  lemma TalliedStep(m: map<Operand, OperandKind>, entries: set<Operand>, k: Operand, reqOpr: nat, optOpr: nat)
    requires Tallied(m, entries, reqOpr, optOpr) && k in entries
    ensures Tallied(m, entries - {k}, reqOpr + Tally(m[k], RequiredOpr, OneOrMoreOpr),
                    optOpr + Tally(m[k], OptionalOpr, ZeroOrMoreOpr))
  {
    var visited := m.Keys - entries;
    assert m.Keys - (entries - {k}) == visited + {k};
    OperandStep(m, visited, k, RequiredOpr, OneOrMoreOpr);
    OperandStep(m, visited, k, OptionalOpr, ZeroOrMoreOpr);
  }

  /** What visiting one more operand adds to a weighted count. */
  lemma OperandStep(m: map<Operand, OperandKind>, visited: set<Operand>, k: Operand, single: OperandKind, many: OperandKind)
    requires k in m && k !in visited && single != many
    ensures WeightSeen(m, visited + {k}, single, many) ==
            WeightSeen(m, visited, single, many) + Tally(m[k], single, many)
  {
    CountStep(OperandsOfKind(m, single), visited, k);
    CountStep(OperandsOfKind(m, many), visited, k);
  }

  /** Once every operand is visited the counters hold the two weights. */
  lemma TalliedAll(m: map<Operand, OperandKind>, reqOpr: nat, optOpr: nat)
    requires Tallied(m, {}, reqOpr, optOpr)
    ensures reqOpr == RequiredOperandWeight(m) && optOpr == OptionalOperandWeight(m)
  {
    var visited := m.Keys - {};
    assert visited == m.Keys;
    Covered(OperandsOfKind(m, RequiredOpr), visited);
    Covered(OperandsOfKind(m, OneOrMoreOpr), visited);
    Covered(OperandsOfKind(m, OptionalOpr), visited);
    Covered(OperandsOfKind(m, ZeroOrMoreOpr), visited);
  }

  lemma Covered<T>(s: set<T>, visited: set<T>)
    requires s <= visited
    ensures s * visited == s
  {
  }

  /** Visiting one more element adds one to the count of the visited members
      of `s` exactly when it is a member. */
  lemma CountStep<T>(s: set<T>, visited: set<T>, k: T)
    requires k !in visited
    ensures |s * (visited + {k})| == |s * visited| + (if k in s then 1 else 0)
  {
    if k in s {
      assert s * (visited + {k}) == s * visited + {k};
    } else {
      assert s * (visited + {k}) == s * visited;
    }
  }
}
